/**
 * Which application boots: two flash records with sequence numbers, rewritten one at a time by an erase and
 * a write, so that a power loss in between leaves the old choice.
 */
module OtaSelect {
  import opened Bytes

  const MAX32: nat := 0xFFFF_FFFF

  type u32 = x: int | 0 <= x <= 0xFFFF_FFFF

  // `esp_partition_subtype_t`, application part
  const FACTORY: nat := 0x00
  const OTA_MIN: nat := 0x10
  const OTA_MAX: nat := 0x20
  const TEST: nat := 0x20

  /** `ota_select`: the checksum covers the sequence number only. */
  datatype Record = Record(number: u32, crc: u32)

  const ERASED: Record := Record(0xFFFF_FFFF, 0xFFFF_FFFF)

  /** `ota_select_valid`, for any checksum function. */
  predicate Good(crc: u32 -> u32, r: Record) {
    r.number != 0xFFFF_FFFF && r.crc == crc(r.number)
  }

  datatype Choice = Slot(index: nat) | Default

  /** The slot that a sequence number selects: `(seq - 1) % count` in 32 bits. */
  function SlotOf(number: u32, count: nat): nat
    requires count > 0
  {
    (if number == 0 then 0xFFFF_FFFF else number - 1) % count
  }

  function Larger(a: u32, b: u32): u32 {
    if a >= b then a else b
  }

  /** What `esp_ota_get_boot_partition` decides from the two records. */
  function Boot(crc: u32 -> u32, r0: Record, r1: Record, count: nat): Choice
    requires count > 0
  {
    if r0.number == 0xFFFF_FFFF && r1.number == 0xFFFF_FFFF then Default
    else if Good(crc, r0) && Good(crc, r1) then Slot(SlotOf(Larger(r0.number, r1.number), count))
    else if Good(crc, r0) then Slot(SlotOf(r0.number, count))
    else if Good(crc, r1) then Slot(SlotOf(r1.number, count))
    else Default
  }

  /** The highest number in force, or 0. */
  function Highest(crc: u32 -> u32, r0: Record, r1: Record): u32 {
    if Good(crc, r0) && Good(crc, r1) then Larger(r0.number, r1.number)
    else if Good(crc, r0) then r0.number
    else if Good(crc, r1) then r1.number
    else 0
  }

  /** The sector that is rewritten: never the one whose record is in force. */
  function Victim(crc: u32 -> u32, r0: Record, r1: Record): nat {
    if Good(crc, r0) && Good(crc, r1) then (if r0.number >= r1.number then 1 else 0)
    else if Good(crc, r0) then 1
    else 0
  }

  // ---------------------------------------------------------------- arithmetic

  lemma MulAtLeast(k: int, n: nat)
    requires k >= 1
    ensures k * n >= n
  {
    if k > 1 {
      MulAtLeast(k - 1, n);
      assert k * n == (k - 1) * n + n;
    }
  }

  /** A multiple of `n` strictly between `-n` and `n` is 0. */
  lemma SmallMultiple(k: int, n: int)
    requires 0 <= n && -n < k * n < n
    ensures k == 0
  {
    if k > 0 {
      MulAtLeast(k, n);
    } else if k < 0 {
      NegatedMultiple(k, n);
      MulAtLeast(-k, n);
    }
  }

  lemma NegatedMultiple(k: int, n: int)
    ensures (-k) * n == -(k * n)
  {
  }

  /** Quotient and remainder are unique. */
  lemma DivUnique(a: nat, n: nat, q: nat, r: nat)
    requires n > 0 && a == q * n + r && r < n
    ensures a % n == r
  {
    assert (q - a / n) * n == a % n - r;
    SmallMultiple(q - a / n, n);
  }

  /** A number selects slot `x` exactly when it is congruent to `x + 1`. */
  lemma SelectsSlot(number: u32, x: nat, count: nat)
    requires x < count && number >= 1
    ensures SlotOf(number, count) == x <==> number % count == (x + 1) % count
  {
    var q, r := (number - 1) / count, (number - 1) % count;
    assert number - 1 == q * count + r;
    if r + 1 < count {
      DivUnique(number, count, q, r + 1);
    } else {
      assert number == (q + 1) * count + 0;
      DivUnique(number, count, q + 1, 0);
    }
    if x + 1 < count {
      DivUnique(x + 1, count, 0, x + 1);
    } else {
      DivUnique(x + 1, count, 1, 0);
    }
  }

  /** The loop's result is the least number not below `from` with the wanted remainder. */
  ghost predicate IsLeast(v: nat, from: nat, r: nat, count: nat)
    requires count > 0
  {
    v >= from && v % count == r && forall w :: from <= w < v ==> w % count != r
  }

  lemma LeastByStep(from: nat, r: nat, count: nat, i: nat)
    requires count > 0 && r < count && from <= r + i * count
    requires i > 0 ==> r + (i - 1) * count < from
    ensures IsLeast(r + i * count, from, r, count)
  {
    var v := r + i * count;
    DivUnique(v, count, i, r);
    forall w | from <= w < v
      ensures w % count != r
    {
      if w % count == r {
        var k := w / count;
        assert w == k * count + r;
        assert (i - k) * count == i * count - k * count;
        SmallMultiple(i - k, count);
      }
    }
  }

  // ---------------------------------------------------------------- the partition table

  /** OTA partitions from subtype `s` on without a gap. */
  function CountFrom(table: set<nat>, s: nat): (n: nat)
    ensures s <= OTA_MAX ==> n <= OTA_MAX - s
    decreases OTA_MAX - s
  {
    if s >= OTA_MAX || s !in table then 0 else 1 + CountFrom(table, s + 1)
  }

  function Count(table: set<nat>): nat {
    CountFrom(table, OTA_MIN)
  }

  /** The assertion of `get_ota_partition_count`: the OTA subtypes end before the test subtype does. */
  predicate TableOk(table: set<nat>) {
    exists s :: OTA_MIN <= s <= OTA_MAX && s !in table
  }

  /** The count is where the first gap is. */
  lemma {:induction false} CountFromIs(table: set<nat>, from: nat, gap: nat)
    requires from <= gap <= OTA_MAX && gap !in table && forall s :: from <= s < gap ==> s in table
    ensures CountFrom(table, from) == gap - from
    decreases gap - from
  {
    if from < gap {
      CountFromIs(table, from + 1, gap);
    }
  }

  lemma {:induction false} CountedPresent(table: set<nat>, from: nat, x: nat)
    requires x < CountFrom(table, from)
    ensures from + x in table && from + x < OTA_MAX
    decreases x
  {
    if x > 0 {
      CountedPresent(table, from + 1, x - 1);
    }
  }

  /** The default choice: factory, else the first OTA slot there is, else the test application. */
  function DefaultOf(table: set<nat>): Option<nat> {
    if FACTORY in table then Some(FACTORY)
    else match FirstFrom(table, OTA_MIN)
      case Some(s) => Some(s)
      case None => if TEST in table then Some(TEST) else None
  }

  function FirstFrom(table: set<nat>, from: nat): Option<nat>
    decreases OTA_MAX - from
  {
    if from >= OTA_MAX then None else if from in table then Some(from) else FirstFrom(table, from + 1)
  }

  lemma {:induction false} FirstFromIs(table: set<nat>, from: nat, s: nat)
    requires from <= s <= OTA_MAX && forall k :: from <= k < s ==> k !in table
    ensures FirstFrom(table, from) == FirstFrom(table, s)
    decreases s - from
  {
    if from < s {
      FirstFromIs(table, from + 1, s);
    }
  }

  /** With any application in the table there is a default, and it is in the table. */
  lemma {:induction false} DefaultExists(table: set<nat>, s: nat)
    requires s in table && (s == FACTORY || OTA_MIN <= s <= OTA_MAX)
    ensures DefaultOf(table).Some? && DefaultOf(table).value in table
  {
    FirstFromPresent(table, OTA_MIN, s);
  }

  /** The order of the choices: factory before every slot, a slot before the slots above it, and all before the test. */
  lemma {:induction false} DefaultIs(table: set<nat>, r: nat)
    ensures DefaultOf(table) == Some(r) <==>
      && r in table
      && (r == FACTORY || OTA_MIN <= r < OTA_MAX || r == TEST)
      && (r != FACTORY ==> FACTORY !in table)
      && (OTA_MIN <= r < OTA_MAX ==> forall k :: OTA_MIN <= k < r ==> k !in table)
      && (r == TEST ==> forall k :: OTA_MIN <= k < OTA_MAX ==> k !in table)
  {
    forall k: nat
      ensures FirstFrom(table, OTA_MIN).Some? ==> FirstFrom(table, OTA_MIN).value in table
      ensures FirstFrom(table, OTA_MIN).None? && OTA_MIN <= k < OTA_MAX ==> k !in table
      ensures FirstFrom(table, OTA_MIN).Some? && OTA_MIN <= k < FirstFrom(table, OTA_MIN).value ==> k !in table
    {
      FirstFromPresent(table, OTA_MIN, k);
      FirstFromLeast(table, OTA_MIN, k);
    }
    if OTA_MIN <= r < OTA_MAX && forall k :: OTA_MIN <= k < r ==> k !in table {
      FirstFromIs(table, OTA_MIN, r);
    }
    FirstFromRange(table, OTA_MIN);
  }

  lemma {:induction false} FirstFromLeast(table: set<nat>, from: nat, k: nat)
    ensures FirstFrom(table, from).Some? && from <= k < FirstFrom(table, from).value ==> k !in table
    decreases OTA_MAX - from
  {
    if from < OTA_MAX && from !in table {
      FirstFromLeast(table, from + 1, k);
    }
  }

  lemma {:induction false} FirstFromRange(table: set<nat>, from: nat)
    ensures FirstFrom(table, from).Some? ==> from <= FirstFrom(table, from).value < OTA_MAX
    decreases OTA_MAX - from
  {
    if from < OTA_MAX && from !in table {
      FirstFromRange(table, from + 1);
    }
  }

  lemma {:induction false} FirstFromPresent(table: set<nat>, from: nat, s: nat)
    ensures FirstFrom(table, from).Some? ==> FirstFrom(table, from).value in table
    ensures FirstFrom(table, from).None? && from <= s < OTA_MAX ==> s !in table
    decreases OTA_MAX - from
  {
    if from < OTA_MAX && from !in table {
      FirstFromPresent(table, from + 1, s);
    }
  }

  // ---------------------------------------------------------------- switching

  /** Whatever a half-done rewrite leaves in the victim sector, as long as it is not valid, the choice stands. */
  lemma PowerLossKeepsChoice(crc: u32 -> u32, r0: Record, r1: Record, torn: Record, count: nat)
    requires count > 0 && !Good(crc, torn)
    ensures if Victim(crc, r0, r1) == 1
      then Boot(crc, r0, torn, count) == Boot(crc, r0, r1, count) && Highest(crc, r0, torn) == Highest(crc, r0, r1)
      else Boot(crc, torn, r1, count) == Boot(crc, r0, r1, count) && Highest(crc, torn, r1) == Highest(crc, r0, r1)
  {
  }

  /** After the new record is in place, its number is in force. */
  lemma SwitchTakesEffect(crc: u32 -> u32, r0: Record, r1: Record, number: u32, x: nat, count: nat)
    requires x < count && number >= 1 && number != 0xFFFF_FFFF
    requires number >= Highest(crc, r0, r1) && number % count == (x + 1) % count
    ensures var next := Record(number, crc(number));
      if Victim(crc, r0, r1) == 1
      then Boot(crc, r0, next, count) == Slot(x) && Highest(crc, r0, next) == number
      else Boot(crc, next, r1, count) == Slot(x) && Highest(crc, next, r1) == number
  {
    SelectsSlot(number, x, count);
  }

  /**
   * Going back to factory erases the first sector before the second. A power loss in between boots neither
   * the old choice nor the default exactly when the second record is valid, older, and selects another slot.
   */
  lemma FactoryInterrupted(crc: u32 -> u32, r0: Record, r1: Record, torn: Record, count: nat)
    requires count > 0 && !Good(crc, torn)
    ensures var after := Boot(crc, torn, r1, count);
      (after == Boot(crc, r0, r1, count) || after == Default) <==>
      !(Good(crc, r0) && Good(crc, r1) && r0.number > r1.number && SlotOf(r0.number, count) != SlotOf(r1.number, count))
  {
  }

  /** Numbers 4 and 3 over three slots: interrupted on the way from slot 0 back to factory, the device boots slot 2. */
  lemma FactoryInterruptedExample(crc: u32 -> u32, torn: Record)
    requires !Good(crc, torn)
    ensures var r0, r1 := Record(4, crc(4)), Record(3, crc(3));
      Boot(crc, r0, r1, 3) == Slot(0) && Boot(crc, torn, r1, 3) == Slot(2)
  {
  }

  /** The power supply during a switch: it stays, or it fails at some step and leaves `torn` in the sector at work. */
  datatype Power = Stays | Fails(step: nat, torn: Record)

  datatype Result = Ok | InvalidArg | NotFound | ValidateFailed | PowerLost

  class OtaData {
    const crc: u32 -> u32
    /** The application subtypes in the partition table. */
    const table: set<nat>
    const hasOtaData: bool
    var sector0: Record
    var sector1: Record

    constructor (crc: u32 -> u32, table: set<nat>, hasOtaData: bool, sector0: Record, sector1: Record)
      ensures this.crc == crc && this.table == table && this.hasOtaData == hasOtaData
      ensures this.sector0 == sector0 && this.sector1 == sector1
    {
      this.crc, this.table, this.hasOtaData, this.sector0, this.sector1 := crc, table, hasOtaData, sector0, sector1;
    }

    /** Sequence numbers in force start at 1. */
    predicate Numbered()
      reads this
    {
      (Good(crc, sector0) ==> sector0.number >= 1) && (Good(crc, sector1) ==> sector1.number >= 1)
    }

    /** A half-written sector fails its checksum. */
    predicate Detected(power: Power) {
      power.Fails? ==> !Good(crc, power.torn)
    }

    function Chosen(): Choice
      requires Count(table) > 0
      reads this
    {
      Boot(crc, sector0, sector1, Count(table))
    }

    function InForce(): u32
      reads this
    {
      Highest(crc, sector0, sector1)
    }

    /** `get_ota_partition_count`: OTA partitions from the first on without a gap. */
    method GetOtaPartitionCount() returns (count: nat)
      requires TableOk(table)
      ensures count == Count(table) <= 16
    {
      count := 0;
      while OTA_MIN + count in table
        invariant count <= 16 && forall s :: OTA_MIN <= s < OTA_MIN + count ==> s in table
        decreases 16 - count
      {
        assert OTA_MIN + count in table;
        count := count + 1;
      }
      CountFromIs(table, OTA_MIN, OTA_MIN + count);
    }

    /** `rewrite_ota_seq`: erase, then write; the power may fail in between. */
    method RewriteOtaSeq(number: u32, sector: nat, power: Power) returns (res: Result)
      modifies this
      ensures sector > 1 ==> res == InvalidArg && sector0 == old(sector0) && sector1 == old(sector1)
      ensures sector <= 1 ==> res == if power.Fails? then PowerLost else Ok
      ensures sector <= 1 ==>
        var left := if power.Fails? then power.torn else Record(number, crc(number));
        && sector0 == (if sector == 1 then old(sector0) else left)
        && sector1 == (if sector == 0 then old(sector1) else left)
    {
      if sector != 0 && sector != 1 {
        return InvalidArg;
      }
      var next := Record(number, crc(number));
      if sector == 0 {
        sector0 := ERASED;
      } else {
        sector1 := ERASED;
      }
      match power {
        case Stays =>
        case Fails(_, torn) => next := torn;
      }
      if sector == 0 {
        sector0 := next;
      } else {
        sector1 := next;
      }
      return if power.Fails? then PowerLost else Ok;
    }

    /** The loop of `esp_rewrite_ota_data`, in 32 bits. */
    method NextNumber(from: u32, x: nat, count: nat) returns (number: u32)
      requires x < count && from + count <= MAX32
      ensures IsLeast(number, from, (x + 1) % count, count) && number < from + count
    {
      var r, i := (x + 1) % count, 0;
      while from > r + i * count
        invariant i > 0 ==> r + (i - 1) * count < from
        invariant r + i * count < from + count
        decreases from - (r + i * count)
      {
        assert (i + 1) * count == i * count + count;
        i := i + 1;
      }
      LeastByStep(from, r, count, i);
      return r + i * count;
    }

    /** `esp_rewrite_ota_data`. */
    method RewriteOtaData(subtype: nat, power: Power) returns (res: Result)
      requires TableOk(table) && Numbered() && Detected(power)
      requires InForce() + Count(table) <= MAX32
      modifies this
      ensures !hasOtaData ==> res == NotFound
      ensures hasOtaData && subtype % 16 >= Count(table) ==> res == InvalidArg
      ensures res in {NotFound, InvalidArg} ==> sector0 == old(sector0) && sector1 == old(sector1)
      ensures hasOtaData && subtype % 16 < Count(table) ==>
        Numbered() && SwitchDone(subtype % 16, power, res, old(sector0), old(sector1))
    {
      if !hasOtaData {
        return NotFound;
      }
      var n := GetOtaPartitionCount();
      var x := subtype % 16;
      if x >= n {
        return InvalidArg;
      }
      if power.Fails? {
        PowerLossKeepsChoice(crc, sector0, sector1, power.torn, n);
      }
      var number: u32;
      if Good(crc, sector0) && Good(crc, sector1) {
        var highest := if sector0.number >= sector1.number then sector0.number else sector1.number;
        number := NextNumber(highest, x, n);
        SwitchTakesEffect(crc, sector0, sector1, number, x, n);
        if sector0.number >= sector1.number {
          res := RewriteOtaSeq(number, 1, power);
        } else {
          res := RewriteOtaSeq(number, 0, power);
        }
      } else if Good(crc, sector0) {
        number := NextNumber(sector0.number, x, n);
        SwitchTakesEffect(crc, sector0, sector1, number, x, n);
        res := RewriteOtaSeq(number, 1, power);
      } else if Good(crc, sector1) {
        number := NextNumber(sector1.number, x, n);
        SwitchTakesEffect(crc, sector0, sector1, number, x, n);
        res := RewriteOtaSeq(number, 0, power);
      } else {
        number := x + 1;
        SwitchTakesEffect(crc, sector0, sector1, number, x, n);
        res := RewriteOtaSeq(number, 0, power);
      }
    }

    /**
     * A finished switch selects slot `x` under the next number; an interrupted one keeps the choice. Only the
     * victim of `r0` and `r1`, the records before, is touched.
     */
    ghost predicate SwitchDone(x: nat, power: Power, res: Result, r0: Record, r1: Record)
      requires x < Count(table)
      reads this
    {
      var chosen, inForce := Boot(crc, r0, r1, Count(table)), Highest(crc, r0, r1);
      var left := if power.Fails? then power.torn else Record(InForce(), crc(InForce()));
      && sector0 == (if Victim(crc, r0, r1) == 1 then r0 else left)
      && sector1 == (if Victim(crc, r0, r1) == 1 then left else r1)
      && if power.Fails?
      then res == PowerLost && Chosen() == chosen && InForce() == inForce
      else
        && res == Ok
        && Chosen() == Slot(x)
        && if inForce > 0 then IsLeast(InForce(), inForce, (x + 1) % Count(table), Count(table)) else InForce() == x + 1
    }

    /** `find_default_boot_partition`. */
    method FindDefault() returns (r: Option<nat>)
      ensures r == DefaultOf(table)
    {
      if FACTORY in table {
        return Some(FACTORY);
      }
      var s := OTA_MIN;
      while s != OTA_MAX
        invariant OTA_MIN <= s <= OTA_MAX && forall k :: OTA_MIN <= k < s ==> k !in table
      {
        if s in table {
          FirstFromIs(table, OTA_MIN, s);
          return Some(s);
        }
        s := s + 1;
      }
      FirstFromIs(table, OTA_MIN, s);
      if TEST in table {
        return Some(TEST);
      }
      return None;
    }

    /** `esp_ota_get_boot_partition`, by subtype. Without OTA partitions there must be no valid record. */
    method GetBootPartition() returns (r: Option<nat>)
      requires TableOk(table)
      requires Count(table) == 0 ==> !Good(crc, sector0) && !Good(crc, sector1)
      ensures !hasOtaData ==> r == None
      ensures hasOtaData && Count(table) == 0 ==> r == DefaultOf(table)
      ensures hasOtaData && Count(table) > 0 && Chosen() == Default ==> r == DefaultOf(table)
      ensures hasOtaData && Count(table) > 0 && Chosen().Slot? ==>
        r == Some(OTA_MIN + Chosen().index) && r.value in table
    {
      if !hasOtaData {
        return None;
      }
      var n := GetOtaPartitionCount();
      if n > 0 && Chosen().Slot? {
        CountedPresent(table, OTA_MIN, Chosen().index);
      }
      if sector0.number == 0xFFFF_FFFF && sector1.number == 0xFFFF_FFFF {
        r := FindDefault();
      } else if Good(crc, sector0) && Good(crc, sector1) {
        r := FindFirst(OTA_MIN + SlotOf(Larger(sector0.number, sector1.number), n));
      } else if Good(crc, sector0) {
        r := FindFirst(OTA_MIN + SlotOf(sector0.number, n));
      } else if Good(crc, sector1) {
        r := FindFirst(OTA_MIN + SlotOf(sector1.number, n));
      } else {
        r := FindDefault();
      }
    }

    /** `esp_partition_find_first` for an application subtype. */
    function FindFirst(subtype: nat): Option<nat> {
      if subtype in table then Some(subtype) else None
    }

    /** `esp_ota_set_boot_partition` for an application partition. */
    method SetBootPartition(subtype: nat, imageOk: bool, power: Power) returns (res: Result)
      requires TableOk(table) && Numbered() && Detected(power)
      requires InForce() + Count(table) <= MAX32
      modifies this
      ensures !imageOk ==> res == ValidateFailed
      ensures imageOk && !hasOtaData ==> res == NotFound
      ensures imageOk && hasOtaData && subtype != FACTORY && subtype % 16 >= Count(table) ==> res == InvalidArg
      ensures res in {ValidateFailed, NotFound, InvalidArg} ==> sector0 == old(sector0) && sector1 == old(sector1)
      ensures Numbered()
      ensures imageOk && hasOtaData && subtype == FACTORY && power.Stays? ==> res == Ok && sector0 == sector1 == ERASED
      ensures imageOk && hasOtaData && subtype == FACTORY && power.Fails? ==> res == PowerLost
      ensures imageOk && hasOtaData && subtype == FACTORY && power.Fails? ==>
        if power.step == 0
        then sector0 == power.torn && sector1 == old(sector1)
        else sector0 == ERASED && sector1 == power.torn
      ensures imageOk && hasOtaData && subtype != FACTORY && subtype % 16 < Count(table) ==>
        SwitchDone(subtype % 16, power, res, old(sector0), old(sector1))
    {
      if !imageOk {
        return ValidateFailed;
      }
      if !hasOtaData {
        return NotFound;
      }
      if subtype != FACTORY {
        res := RewriteOtaData(subtype, power);
        return;
      }
      match power {
        case Stays =>
          sector0, sector1 := ERASED, ERASED;
          res := Ok;
        case Fails(step, torn) =>
          if step == 0 {
            sector0 := torn;
          } else {
            sector0, sector1 := ERASED, torn;
          }
          res := PowerLost;
      }
    }

    /**
     * Switching and asking again, for any application partition: the switch is done exactly for factory and for the
     * slots that are counted, by the low four bits of the subtype, and then the partition that was set boots exactly
     * when it is not the test application, whose low bits are those of the first slot.
     */
    method SetThenGet(subtype: nat) returns (res: Result, r: Option<nat>)
      requires TableOk(table) && Numbered() && InForce() + Count(table) <= MAX32
      requires hasOtaData && subtype in table && (subtype == FACTORY || OTA_MIN <= subtype <= TEST)
      modifies this
      ensures res == Ok <==> subtype == FACTORY || subtype % 16 < Count(table)
      ensures res == Ok ==> (r == Some(subtype) <==> subtype != TEST)
      ensures res == Ok && subtype == TEST ==> r == Some(OTA_MIN)
    {
      r := None;
      res := SetBootPartition(subtype, true, Stays);
      if res == Ok {
        r := GetBootPartition();
      }
    }
  }

  /** With one OTA slot and the test application: setting the test application succeeds and boots the slot. */
  method TestApplicationNotBooted(crc: u32 -> u32) returns (res: Result, r: Option<nat>)
    ensures res == Ok && r == Some(OTA_MIN) && r != Some(TEST)
  {
    var data := new OtaData(crc, {OTA_MIN, TEST}, true, ERASED, ERASED);
    CountFromIs(data.table, OTA_MIN, OTA_MIN + 1);
    assert OTA_MIN + 1 !in data.table;
    res, r := data.SetThenGet(TEST);
  }

  /**
   * From erased sectors, three switches over three slots lead to the numbers 4 and 3; a power loss while the device
   * goes back to factory then makes it boot slot 2, where it ran slot 0.
   */
  method FactoryInterruptedReachable(crc: u32 -> u32, torn: Record) returns (data: OtaData)
    requires !Good(crc, torn)
    ensures data.sector0 == torn && data.sector1 == Record(3, crc(3))
    ensures Count(data.table) == 3 && data.Chosen() == Slot(2)
  {
    data := new OtaData(crc, {FACTORY, OTA_MIN, OTA_MIN + 1, OTA_MIN + 2}, true, ERASED, ERASED);
    CountFromIs(data.table, OTA_MIN, OTA_MIN + 3);
    assert OTA_MIN + 3 !in data.table;
    var res := data.SetBootPartition(OTA_MIN, true, Stays);
    assert data.sector0 == Record(1, crc(1)) && data.sector1 == ERASED;
    res := data.SetBootPartition(OTA_MIN + 2, true, Stays);
    NextOfThree(data.InForce(), 1, 0, 3);
    assert data.sector0 == Record(1, crc(1)) && data.sector1 == Record(3, crc(3));
    res := data.SetBootPartition(OTA_MIN, true, Stays);
    NextOfThree(data.InForce(), 3, 1, 4);
    assert data.sector0 == Record(4, crc(4)) && data.sector1 == Record(3, crc(3)) && data.Chosen() == Slot(0);
    res := data.SetBootPartition(FACTORY, true, Fails(0, torn));
    FactoryInterruptedExample(crc, torn);
  }

  lemma NextOfThree(v: nat, from: nat, r: nat, least: nat)
    requires IsLeast(v, from, r, 3) && from <= least < from + 3 && least % 3 == r
    ensures v == least
  {
  }
}
