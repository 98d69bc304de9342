/** `cadence.py`, `_Cia`: one CIA's two timers, interrupt data register and mask. */
module Cia {
  import opened Words

  /** The registers: bytes, latches in cycles, and the cycle each timer underflows at. */
  datatype Regs = Regs(latch: seq<int>, cr: seq<bv8>, mask: bv8, flags: bv8, due: seq<int>) {
    ghost predicate Valid() {
      |latch| == 2 && |cr| == 2 && |due| == 2 && 0 <= latch[0] < 0x1_0000 && 0 <= latch[1] < 0x1_0000
    }
  }

  const START: bv8 := 0x01
  const ONE_SHOT: bv8 := 0x08
  const FORCE_LOAD: bv8 := 0x10
  const COUNT_A: bv8 := 0x40

  predicate Has(byte: bv8, bits: bv8) {
    byte & bits != 0
  }

  function With(byte: bv8, bits: bv8): bv8 {
    byte | bits
  }

  function Without(byte: bv8, bits: bv8): bv8 {
    byte & !bits
  }

  function Bit(timer: int): bv8 {
    if timer == 0 then 1 else 2
  }

  /** Cycles between underflows; Timer B may count Timer A's. */
  function Period(c: Regs, timer: int): (p: int)
    requires c.Valid() && 0 <= timer < 2
    ensures p > 0 && p % (c.latch[timer] + 1) == 0
  {
    if timer == 1 && Has(c.cr[1], COUNT_A) then
      ModAddMultiple(0, c.latch[0] + 1, c.latch[1] + 1);
      ProductPositive(c.latch[1] + 1, c.latch[0] + 1);
      (c.latch[1] + 1) * (c.latch[0] + 1)
    else
      ModUnique(c.latch[timer] + 1, c.latch[timer] + 1, 1, 0);
      c.latch[timer] + 1
  }

  lemma PeriodIgnoresFlags(c: Regs, flags: bv8, timer: int)
    requires c.Valid() && 0 <= timer < 2
    ensures Period(c.(flags := flags), timer) == Period(c, timer)
  {
  }

  lemma ProductPositive(a: int, b: int)
    requires a > 0 && b > 0
    ensures a * b > 0
  {
  }

  predicate Running(c: Regs, timer: int)
    requires c.Valid() && 0 <= timer < 2
  {
    Has(c.cr[timer], START)
  }

  /** The timer runs and its underflow raises the interrupt. */
  predicate Armed(c: Regs, timer: int)
    requires c.Valid() && 0 <= timer < 2
  {
    Running(c, timer) && Has(c.mask, Bit(timer))
  }

  /** The chip asserts its interrupt line. */
  predicate Asserted(c: Regs) {
    Has(c.flags, c.mask)
  }

  function ByteValue(value: bv8): (v: int)
    ensures 0 <= v < 0x100
  {
    value as int
  }

  /** The 16-bit word with its high or low byte replaced. */
  function WithByte(word: int, high: bool, byte: int): (w: int)
    requires 0 <= word < 0x1_0000 && 0 <= byte < 0x100
    ensures 0 <= w < 0x1_0000
    ensures if high then w / 0x100 == byte && w % 0x100 == word % 0x100
        else w / 0x100 == word / 0x100 && w % 0x100 == byte
  {
    if high then word % 0x100 + byte * 0x100 else word / 0x100 * 0x100 + byte
  }

  function LatchWritten(c: Regs, timer: int, high: bool, byte: int): (d: Regs)
    requires c.Valid() && 0 <= timer < 2 && 0 <= byte < 0x100
    ensures d.Valid()
  {
    c.(latch := c.latch[timer := WithByte(c.latch[timer], high, byte)])
  }

  function MaskWritten(c: Regs, value: bv8): (d: Regs)
    requires c.Valid()
    ensures d.Valid()
  {
    c.(mask := if Has(value, 0x80) then With(c.mask, Without(value, 0xE0)) else Without(c.mask, Without(value, 0xE0)))
  }

  function ControlWritten(c: Regs, timer: int, value: bv8, now: int): (d: Regs)
    requires c.Valid() && 0 <= timer < 2
    ensures d.Valid()
  {
    var started := Has(value, START) && !Has(c.cr[timer], START);
    var d := c.(cr := c.cr[timer := Without(value, FORCE_LOAD)]);
    if started || Has(value, FORCE_LOAD) then d.(due := d.due[timer := now + Period(d, timer)]) else d
  }

  /** A register write at cycle `now`. */
  function Written(c: Regs, offset: int, value: bv8, now: int): (d: Regs)
    requires c.Valid() && 0 <= offset < 16
    ensures d.Valid()
  {
    if 4 <= offset <= 7 then LatchWritten(c, (offset - 4) / 2, offset % 2 == 1, ByteValue(value))
    else if offset == 0xD then MaskWritten(c, value)
    else if offset >= 0xE then ControlWritten(c, offset - 0xE, value, now)
    else c
  }

  /** The timer underflows, serviced at `now`. */
  function Underflown(c: Regs, timer: int, now: int): (d: Regs)
    requires c.Valid() && 0 <= timer < 2
    ensures d.Valid()
  {
    var d := c.(flags := With(c.flags, Bit(timer)));
    if Has(c.cr[timer], ONE_SHOT) then d.(cr := c.cr[timer := Without(c.cr[timer], START)])
    else
      var period := Period(c, timer);
      d.(due := c.due[timer := c.due[timer] + period * ((now - c.due[timer]) / period + 1)])
  }

  function Overdue(c: Regs, timer: int, now: int): Regs
    requires c.Valid() && 0 <= timer < 2
  {
    if Running(c, timer) && c.due[timer] <= now then Underflown(c, timer, now) else c
  }

  /** Both timers' overdue underflows, as `read_icr` services them. */
  function Serviced(c: Regs, now: int): (d: Regs)
    requires c.Valid()
    ensures d.Valid()
  {
    Overdue(Overdue(c, 0, now), 1, now)
  }

  function IcrValue(c: Regs): bv8 {
    if Asserted(c) then With(c.flags, 0x80) else c.flags
  }

  /** Python's `%` by a positive divisor: the count at `now`, from the latch down to 0. */
  function Counter(c: Regs, timer: int, now: int): int
    requires c.Valid() && 0 <= timer < 2
  {
    if !Running(c, timer) then c.latch[timer]
    else (c.due[timer] - now - 1) % (c.latch[timer] + 1)
  }

  /** The register is the timer's: a latch byte or its control register. */
  predicate Concerns(offset: int, timer: int) {
    offset == 4 + 2 * timer || offset == 5 + 2 * timer || offset == 0xE + timer
  }

  /** A write touches the timer the register is of, and asserts nothing unless it is the mask's. */
  lemma WrittenTouches(c: Regs, offset: int, value: bv8, now: int)
    requires c.Valid() && 0 <= offset < 16
    ensures var d := Written(c, offset, value, now);
            && (offset != 0xD ==> Asserted(d) == Asserted(c))
            && forall t {:trigger Concerns(offset, t)} :: 0 <= t < 2 && !Concerns(offset, t) ==>
                 d.latch[t] == c.latch[t] && d.cr[t] == c.cr[t] && d.due[t] == c.due[t]
  {
    hide ByteValue, WithByte, Period, Has, With, Without;
  }

  // ----- what a write and a read are to do, in the registers' own bits

  /** One byte of a latch is the value written, and nothing else changes. */
  ghost predicate LatchSet(c: Regs, d: Regs, timer: int, high: bool, value: bv8)
    requires c.Valid() && d.Valid() && 0 <= timer < 2
  {
    && d == c.(latch := d.latch) && d.latch[1 - timer] == c.latch[1 - timer]
    && d.latch[timer] / 0x100 == (if high then value as int else c.latch[timer] / 0x100)
    && d.latch[timer] % 0x100 == (if high then c.latch[timer] % 0x100 else value as int)
  }

  /** The mask bits named by the low five are set or cleared, as bit 7 says, and nothing else changes. */
  ghost predicate MaskSet(c: Regs, d: Regs, value: bv8) {
    && d == c.(mask := d.mask) && d.mask & !(value & 0x1F) == c.mask & !(value & 0x1F)
    && d.mask & value & 0x1F == if value & 0x80 != 0 then value & 0x1F else 0
  }

  /** The cycles a timer counts from its latch, Timer B those of Timer A's underflows if bit 6 says so. */
  function Span(latch: seq<int>, timer: int, cr: bv8): int
    requires |latch| == 2 && 0 <= timer < 2
  {
    if timer == 1 && cr & 0x40 != 0 then (latch[0] + 1) * (latch[1] + 1) else latch[timer] + 1
  }

  /** The register keeps all but the strobe, bit 4; starting a stopped timer by bit 0, or the strobe, makes
      it due a whole span from now; nothing else changes. */
  ghost predicate ControlSet(c: Regs, d: Regs, timer: int, value: bv8, now: int)
    requires c.Valid() && d.Valid() && 0 <= timer < 2
  {
    && d == c.(cr := d.cr, due := d.due) && d.cr[1 - timer] == c.cr[1 - timer] && d.due[1 - timer] == c.due[1 - timer]
    && d.cr[timer] == value & 0xEF
    && d.due[timer] == if value & 0x10 != 0 || (value & 0x01 != 0 && c.cr[timer] & 0x01 == 0)
                       then now + Span(c.latch, timer, value) else c.due[timer]
  }

  /** A register write. */
  ghost predicate WriteDone(c: Regs, d: Regs, offset: int, value: bv8, now: int)
    requires c.Valid() && d.Valid() && 0 <= offset < 16
  {
    if 4 <= offset <= 7 then LatchSet(c, d, if offset < 6 then 0 else 1, offset == 5 || offset == 7, value)
    else if offset == 0xD then MaskSet(c, d, value)
    else if offset == 0xE || offset == 0xF then ControlSet(c, d, if offset == 0xE then 0 else 1, value, now)
    else d == c
  }

  lemma LatchDone(c: Regs, timer: int, high: bool, value: bv8)
    requires c.Valid() && 0 <= timer < 2
    ensures LatchSet(c, LatchWritten(c, timer, high, ByteValue(value)), timer, high, value)
  {
  }

  lemma MaskDone(c: Regs, value: bv8)
    requires c.Valid()
    ensures MaskSet(c, MaskWritten(c, value), value)
  {
  }

  lemma PeriodIsSpan(c: Regs, timer: int)
    requires c.Valid() && 0 <= timer < 2
    ensures Period(c, timer) == Span(c.latch, timer, c.cr[timer])
  {
    assert (c.latch[1] + 1) * (c.latch[0] + 1) == (c.latch[0] + 1) * (c.latch[1] + 1);
  }

  lemma StrobeBits(value: bv8)
    ensures Without(value, FORCE_LOAD) == value & 0xEF && ((value & 0xEF) & 0x40 != 0 <==> value & 0x40 != 0)
  {
  }

  lemma ControlDone(c: Regs, timer: int, value: bv8, now: int)
    requires c.Valid() && 0 <= timer < 2
    ensures ControlSet(c, ControlWritten(c, timer, value, now), timer, value, now)
  {
    StrobeBits(value);
    var d := c.(cr := c.cr[timer := Without(value, FORCE_LOAD)]);
    PeriodIsSpan(d, timer);
    hide Period, Without;
  }

  /** The bytes, bits and cycles a write leaves, whichever register it is of. */
  lemma WriteIsDone(c: Regs, offset: int, value: bv8, now: int)
    requires c.Valid() && 0 <= offset < 16
    ensures WriteDone(c, Written(c, offset, value, now), offset, value, now)
  {
    hide LatchWritten, MaskWritten, ControlWritten, LatchSet, MaskSet, ControlSet, ByteValue;
    if 4 <= offset <= 7 {
      LatchDone(c, (offset - 4) / 2, offset % 2 == 1, value);
    } else if offset == 0xD {
      MaskDone(c, value);
    } else if offset >= 0xE {
      ControlDone(c, offset - 0xE, value, now);
    }
  }

  /** The timer's flag is up; a one-shot timer is stopped, another is due at the first cycle after `now`
      that is whole spans from when it was. */
  ghost predicate UnderflowDone(c: Regs, d: Regs, timer: int, now: int)
    requires c.Valid() && d.Valid() && 0 <= timer < 2
  {
    var span := Span(c.latch, timer, c.cr[timer]);
    && d == c.(flags := d.flags, cr := c.cr[timer := d.cr[timer]], due := c.due[timer := d.due[timer]])
    && d.flags == c.flags | (if timer == 0 then 0x01 else 0x02)
    && if c.cr[timer] & 0x08 != 0 then d.cr[timer] == c.cr[timer] & 0xFE && d.due[timer] == c.due[timer]
       else d.cr == c.cr && d.due[timer] - span <= now < d.due[timer] && (d.due[timer] - c.due[timer]) % span == 0
  }

  lemma UnderflowIsDone(c: Regs, timer: int, now: int)
    requires c.Valid() && 0 <= timer < 2
    ensures UnderflowDone(c, Underflown(c, timer, now), timer, now)
  {
    hide UnderflowDone, Underflown, Has;
    if Has(c.cr[timer], ONE_SHOT) {
      UnderflowOnce(c, timer, now);
    } else {
      UnderflowAgain(c, timer, now);
    }
  }

  lemma UnderflowOnce(c: Regs, timer: int, now: int)
    requires c.Valid() && 0 <= timer < 2 && Has(c.cr[timer], ONE_SHOT)
    ensures UnderflowDone(c, Underflown(c, timer, now), timer, now)
  {
    FlagBits(c.flags, c.cr[timer]);
    hide Period, With, Without, Span, Has;
  }

  lemma UnderflowAgain(c: Regs, timer: int, now: int)
    requires c.Valid() && 0 <= timer < 2 && !Has(c.cr[timer], ONE_SHOT)
    ensures UnderflowDone(c, Underflown(c, timer, now), timer, now)
  {
    FlagBits(c.flags, c.cr[timer]);
    PeriodIsSpan(c, timer);
    UnderflowPhase(c, timer, now);
    UnderflowKeeps(c, timer, now);
    hide Period, With, Without, Span, Underflown, Has;
  }

  lemma UnderflowKeeps(c: Regs, timer: int, now: int)
    requires c.Valid() && 0 <= timer < 2 && !Has(c.cr[timer], ONE_SHOT)
    ensures var d := Underflown(c, timer, now);
      d == c.(flags := With(c.flags, Bit(timer)), due := c.due[timer := d.due[timer]])
  {
    hide Period, With, Has;
  }

  lemma FlagBits(flags: bv8, cr: bv8)
    ensures With(flags, Bit(0)) == flags | 0x01 && With(flags, Bit(1)) == flags | 0x02
    ensures Without(cr, START) == cr & 0xFE && (Has(cr, ONE_SHOT) <==> cr & 0x08 != 0)
  {
  }

  /** A timer runs and is due by `now`. */
  predicate Late(c: Regs, timer: int, now: int)
    requires c.Valid() && 0 <= timer < 2
  {
    c.cr[timer] & 0x01 != 0 && c.due[timer] <= now
  }

  function FlagUp(flags: bv8, late: bool, bit: bv8): bv8 {
    if late then flags | bit else flags
  }

  /** The flags, with those of the late timers. */
  function LateFlags(c: Regs, now: int): bv8
    requires c.Valid()
  {
    FlagUp(FlagUp(c.flags, Late(c, 0, now), 0x01), Late(c, 1, now), 0x02)
  }

  /** An ICR read gives them, and bit 7 when one of them is in the mask. */
  ghost predicate IcrRead(c: Regs, value: bv8, now: int)
    requires c.Valid()
  {
    value == LateFlags(c, now) | if LateFlags(c, now) & c.mask != 0 then 0x80 else 0
  }

  lemma OverdueFlags(c: Regs, timer: int, now: int)
    requires c.Valid() && 0 <= timer < 2
    ensures var d := Overdue(c, timer, now);
      && d.Valid() && d.mask == c.mask && d.cr[1 - timer] == c.cr[1 - timer] && d.due[1 - timer] == c.due[1 - timer]
      && d.flags == FlagUp(c.flags, Late(c, timer, now), if timer == 0 then 0x01 else 0x02)
  {
    UnderflowIsDone(c, timer, now);
    hide Underflown, Span;
  }

  lemma IcrByte(flags: bv8, mask: bv8)
    ensures (if Has(flags, mask) then With(flags, 0x80) else flags) == flags | if flags & mask != 0 then 0x80 else 0
  {
  }

  lemma ServicedFlags(c: Regs, now: int)
    requires c.Valid()
    ensures var d := Serviced(c, now);
      d.mask == c.mask && d.flags == LateFlags(c, now)
  {
    OverdueFlags(c, 0, now);
    OverdueFlags(Overdue(c, 0, now), 1, now);
    assert Late(Overdue(c, 0, now), 1, now) == Late(c, 1, now);
    hide Overdue, Late, FlagUp;
  }

  lemma IcrIsRead(c: Regs, now: int)
    requires c.Valid()
    ensures IcrRead(c, IcrValue(Serviced(c, now)), now)
  {
    ServicedFlags(c, now);
    IcrByte(Serviced(c, now).flags, c.mask);
    hide Serviced, Has, With, LateFlags;
  }

  // ----- the object the machine owns

  class Chip {
    var latch: seq<int>
    var cr: seq<bv8>
    var mask: bv8
    var flags: bv8
    var due: seq<int>

    function State(): Regs
      reads this
    {
      Regs(latch, cr, mask, flags, due)
    }

    constructor ()
      ensures State() == Regs([0xFFFF, 0xFFFF], [0, 0], 0, 0, [0, 0]) && State().Valid()
    {
      latch, cr, mask, flags, due := [0xFFFF, 0xFFFF], [0, 0], 0, 0, [0, 0];
    }

    /** Starting the timer or forcing its latch reloads it; the strobe bit is not kept. */
    method WriteControl(timer: int, value: bv8, now: int)
      requires State().Valid() && 0 <= timer < 2
      modifies this`cr, this`due
      ensures State() == ControlWritten(old(State()), timer, value, now)
    {
      hide Period, Has, Without;
      var started := Has(value, START) && !Has(cr[timer], START);
      cr := cr[timer := Without(value, FORCE_LOAD)];
      if started || Has(value, FORCE_LOAD) {
        due := due[timer := now + Period(State(), timer)];
      }
    }

    /** A register write touches one timer or the mask, never the flags. */
    method Write(offset: int, value: bv8, now: int)
      requires State().Valid() && 0 <= offset < 16
      modifies this`latch, this`mask, this`cr, this`due
      ensures State() == Written(old(State()), offset, value, now) && State().Valid()
      ensures forall t {:trigger Concerns(offset, t)} :: 0 <= t < 2 && !Concerns(offset, t) ==>
                latch[t] == old(latch[t]) && cr[t] == old(cr[t]) && due[t] == old(due[t])
      ensures offset != 0xD ==> Asserted(State()) == old(Asserted(State()))
      ensures WriteDone(old(State()), State(), offset, value, now)
    {
      hide ByteValue, WithByte, ControlWritten, Has, With, Without, Concerns, Asserted, WriteDone;
      WrittenTouches(State(), offset, value, now);
      WriteIsDone(State(), offset, value, now);
      if 4 <= offset <= 7 {
        var timer := (offset - 4) / 2;
        latch := latch[timer := WithByte(latch[timer], offset % 2 == 1, ByteValue(value))];
      } else if offset == 0xD {
        var bits := Without(value, 0xE0);
        mask := if Has(value, 0x80) then With(mask, bits) else Without(mask, bits);
      } else if offset == 0xE || offset == 0xF {
        WriteControl(offset - 0xE, value, now);
      }
    }

    /** True if the underflow newly asserts the interrupt line. */
    method Underflow(timer: int, now: int) returns (raised: bool)
      requires State().Valid() && 0 <= timer < 2
      modifies this
      ensures State() == Underflown(old(State()), timer, now)
      ensures raised == (!old(Asserted(State())) && Asserted(State()))
      ensures UnderflowDone(old(State()), State(), timer, now)
    {
      hide Period, Has, With, Without, UnderflowDone;
      UnderflowIsDone(State(), timer, now);
      var asserted := Has(flags, mask);
      flags := With(flags, Bit(timer));
      if Has(cr[timer], ONE_SHOT) {
        cr := cr[timer := Without(cr[timer], START)];
      } else {
        var period := Period(State(), timer);
        PeriodIgnoresFlags(old(State()), flags, timer);
        due := due[timer := due[timer] + period * ((now - due[timer]) / period + 1)];
      }
      raised := !asserted && Has(flags, mask);
    }

    method ReadIcr(now: int) returns (value: bv8)
      requires State().Valid()
      modifies this
      ensures value == IcrValue(Serviced(old(State()), now))
      ensures State() == Serviced(old(State()), now).(flags := 0)
      ensures IcrRead(old(State()), value, now)
    {
      hide IcrRead;
      IcrIsRead(State(), now);
      for timer := 0 to 2
        invariant State().Valid()
        invariant State() == if timer == 0 then old(State()) else
                             if timer == 1 then Overdue(old(State()), 0, now) else Serviced(old(State()), now)
      {
        if Has(cr[timer], START) && due[timer] <= now {
          var _ := Underflow(timer, now);
        }
      }
      value := flags;
      flags := 0;
      value := if Has(value, mask) then With(value, 0x80) else value;
    }
  }

  // ----- what the registers mean

  /** A serviced continuous timer is due at the first cycle after `now` in the same phase. */
  lemma UnderflowPhase(c: Regs, timer: int, now: int)
    requires c.Valid() && 0 <= timer < 2 && !Has(c.cr[timer], ONE_SHOT)
    ensures var p, d := Period(c, timer), Underflown(c, timer, now);
            && d.due[timer] - p <= now < d.due[timer] && (d.due[timer] - c.due[timer]) % p == 0
  {
    hide Period;
    var p, x := Period(c, timer), now - c.due[timer];
    DivisionSteps(x, p);
    ModAddMultiple(0, x / p + 1, p);
    assert p * (x / p + 1) == (x / p + 1) * p;
  }

  lemma DivisionSteps(x: int, p: int)
    requires p > 0
    ensures p * (x / p + 1) - p <= x < p * (x / p + 1)
  {
    assert x == p * (x / p) + x % p;
    assert p * (x / p + 1) == p * (x / p) + p;
  }

  /** No later cycle after `now` in that phase is nearer. */
  lemma UnderflowFirst(c: Regs, timer: int, now: int, cycle: int)
    requires c.Valid() && 0 <= timer < 2 && !Has(c.cr[timer], ONE_SHOT)
    requires cycle > now && (cycle - c.due[timer]) % Period(c, timer) == 0
    ensures Underflown(c, timer, now).due[timer] <= cycle
  {
    hide Period;
    var p, x := Period(c, timer), now - c.due[timer];
    var k, q := (cycle - c.due[timer]) / p, x / p;
    DivisionSteps(x, p);
    assert cycle - c.due[timer] == k * p;
    MultipleIsFar(k - (q + 1), p);
    assert (k - (q + 1)) * p == k * p - p * (q + 1);
  }

  /** Reading a continuous timer gives the same whether or not an underflow was serviced. */
  lemma CounterUnderflow(c: Regs, timer: int, serviced: int, now: int)
    requires c.Valid() && 0 <= timer < 2 && !Has(c.cr[timer], ONE_SHOT)
    ensures Counter(Underflown(c, timer, serviced), timer, now) == Counter(c, timer, now)
  {
    hide Period;
    var p, m := Period(c, timer), c.latch[timer] + 1;
    var q, r := (serviced - c.due[timer]) / p + 1, p / m;
    assert p == r * m;
    assert p * q == (q * r) * m by {
      assert (r * m) * q == (q * r) * m;
    }
    ModAddMultiple(c.due[timer] - now - 1, q * r, m);
  }

  /** A stopped timer reads its latch. A running one counts down once a cycle, 0 just before it is due, and
      then from the latch. */
  lemma CounterCounts(c: Regs, timer: int, now: int)
    requires c.Valid() && 0 <= timer < 2
    ensures 0 <= Counter(c, timer, now) <= c.latch[timer]
    ensures if c.cr[timer] & 0x01 == 0 then Counter(c, timer, now) == c.latch[timer]
            else
              && (now + 1 == c.due[timer] ==> Counter(c, timer, now) == 0)
              && Counter(c, timer, now + 1) ==
                 if Counter(c, timer, now) == 0 then c.latch[timer] else Counter(c, timer, now) - 1
  {
    var m := c.latch[timer] + 1;
    CountsDown(c.due[timer] - now - 1, m);
  }

  lemma CountsDown(x: int, m: int)
    requires m > 0
    ensures 0 <= x % m < m && (x == 0 ==> x % m == 0) && (x - 1) % m == if x % m == 0 then m - 1 else x % m - 1
  {
    assert x == (x / m) * m + x % m;
    if x % m == 0 {
      assert (x / m - 1) * m == (x / m) * m - m;
      ModUnique(x - 1, m, x / m - 1, m - 1);
    } else {
      ModUnique(x - 1, m, x / m, x % m - 1);
    }
    if x == 0 {
      ModUnique(0, m, 0, 0);
    }
  }

  lemma BitFacts(flags: bv8, mask: bv8, timer: int)
    ensures Has(flags, mask) ==> Has(With(flags, Bit(timer)), mask)
  {
    assert flags & mask != 0 ==> (flags | 1) & mask != 0;
    assert flags & mask != 0 ==> (flags | 2) & mask != 0;
  }

  /** After an ICR read the line is down and no running timer is overdue. */
  lemma ReadIcrClears(c: Regs, now: int)
    requires c.Valid()
    ensures var d := Serviced(c, now).(flags := 0);
            && d.Valid() && !Asserted(d)
            && forall t :: 0 <= t < 2 && Running(d, t) ==> d.due[t] > now
  {
    var a := Overdue(c, 0, now);
    var b := Overdue(a, 1, now);
    OverdueDue(c, 0, now);
    OverdueDue(a, 1, now);
    assert b.due[0] == a.due[0] && b.cr[0] == a.cr[0];
    assert !Has(0, b.mask);
  }

  lemma OverdueDue(c: Regs, timer: int, now: int)
    requires c.Valid() && 0 <= timer < 2
    ensures var d := Overdue(c, timer, now); Running(d, timer) ==> d.due[timer] > now
  {
    if Running(c, timer) && c.due[timer] <= now {
      if !Has(c.cr[timer], ONE_SHOT) {
        UnderflowPhase(c, timer, now);
      } else {
        Stopped(c.cr[timer]);
      }
    }
  }

  lemma Stopped(cr: bv8)
    ensures !Has(Without(cr, START), START)
  {
  }

  // ----- raises of one chip

  /** What happens to a chip, in order. */
  datatype Op = Poke(offset: int, value: bv8, now: int) | Acknowledge(now: int) | Elapse(timer: int, now: int)

  ghost predicate ValidOp(op: Op) {
    (op.Poke? ==> 0 <= op.offset < 16) && (op.Elapse? ==> 0 <= op.timer < 2)
  }

  function Apply(c: Regs, op: Op): (d: Regs)
    requires c.Valid() && ValidOp(op)
    ensures d.Valid()
  {
    match op
    case Poke(offset, value, now) => Written(c, offset, value, now)
    case Acknowledge(now) => Serviced(c, now).(flags := 0)
    case Elapse(timer, now) => Underflown(c, timer, now)
  }

  /** The chip before the `k`-th of `ops`. */
  function At(c: Regs, ops: seq<Op>, k: nat): (d: Regs)
    requires c.Valid() && k <= |ops| && forall op :: op in ops ==> ValidOp(op)
    ensures d.Valid()
  {
    if k == 0 then c else Apply(At(c, ops, k - 1), ops[k - 1])
  }

  /** The line drops at the `k`-th operation, by an ICR read or a mask write. */
  ghost predicate Drops(c: Regs, ops: seq<Op>, k: nat)
    requires c.Valid() && forall op :: op in ops ==> ValidOp(op)
  {
    && k < |ops| && (ops[k].Acknowledge? || (ops[k].Poke? && ops[k].offset == 0xD && !Has(ops[k].value, 0x80)))
    && Asserted(At(c, ops, k)) && !Asserted(At(c, ops, k + 1))
  }

  lemma MaskGrows(flags: bv8, mask: bv8, bits: bv8)
    ensures Has(flags, mask) ==> Has(flags, With(mask, bits))
  {
  }

  /** Only an ICR read or a write clearing mask bits takes the line down. */
  lemma OnlyDrops(c: Regs, op: Op)
    requires c.Valid() && ValidOp(op) && Asserted(c) && !Asserted(Apply(c, op))
    ensures op.Acknowledge? || (op.Poke? && op.offset == 0xD && !Has(op.value, 0x80))
  {
    match op
    case Elapse(timer, now) => BitFacts(c.flags, c.mask, timer);
    case Poke(offset, value, now) => MaskGrows(c.flags, c.mask, Without(value, 0xE0));
    case Acknowledge(now) =>
  }

  /** A line up before the `i`-th operation and down before the `j`-th drops at one between. */
  lemma {:induction false} DropBetween(c: Regs, ops: seq<Op>, i: nat, j: nat) returns (k: nat)
    requires c.Valid() && forall op :: op in ops ==> ValidOp(op)
    requires i < j <= |ops| && Asserted(At(c, ops, i)) && !Asserted(At(c, ops, j))
    ensures i <= k < j && Drops(c, ops, k)
    decreases j - i
  {
    hide Apply, Asserted;
    if Asserted(At(c, ops, j - 1)) {
      k := j - 1;
      OnlyDrops(At(c, ops, k), ops[k]);
    } else {
      k := DropBetween(c, ops, i, j - 1);
    }
  }
}
