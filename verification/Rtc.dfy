/**
 The virtual real-time clock behind the CMOS ports: an anchor second plus the
 time elapsed since, shown in BCD registers and re-anchored by guest writes.
 */
module Rtc {
  import opened Calendar
  import opened Arith
  import opened GuestMemory

  const SECONDS_PER_DAY: nat := 86400

  /** 2100-01-01 00:00:00. */
  const LIMIT: nat := 4102444800

  /** bin2bcd; the two digits do not overlap, so adding them is or-ing them. */
  function ToBcd(a: nat): (b: nat) { a / 10 * 16 + a % 10 }

  /** bcd2bin. */
  function FromBcd(b: nat): (a: nat) { b / 16 % 16 * 10 + b % 16 }

  lemma BcdRoundTrip(a: nat)
    requires a < 100
    ensures FromBcd(ToBcd(a)) == a && ToBcd(a) < 256
  {
  }

  const TIME_REGS: set<nat> := {0x00, 0x02, 0x04, 0x06, 0x07, 0x08, 0x09, 0x32}

  /** The registers that hold time and date; the weekday is shown but never read back. */
  const READ_REGS: set<nat> := {0x00, 0x02, 0x04, 0x07, 0x08, 0x09, 0x32}

  /** The registers that hold `t` and second `tod` of that day. */
  function FieldOf(t: Date, tod: nat, reg: nat): (v: byte)
    requires reg in READ_REGS && t.year >= 0 && t.month >= 0 && t.day >= 0
  {
    var v := if reg == 0x00 then ToBcd(tod % 60)
      else if reg == 0x02 then ToBcd(tod / 60 % 60)
      else if reg == 0x04 then ToBcd(tod / 3600)
      else if reg == 0x07 then ToBcd(t.day)
      else if reg == 0x08 then ToBcd(t.month)
      else if reg == 0x09 then ToBcd(t.year % 100)
      else ToBcd(t.year / 100);
    v % 256
  }

  /** rtc_fields_from_sec, register by register. */
  function Field(secs: nat, reg: nat): (v: byte)
    requires reg in TIME_REGS
  {
    var days, t := secs / SECONDS_PER_DAY, CivilFromDays(secs / SECONDS_PER_DAY);
    DayRoundTrip(days);
    YearRange(days);
    if reg == 0x06 then ToBcd((days + 4) % 7) + 1 else FieldOf(t, secs % SECONDS_PER_DAY, reg)
  }

  /** Two decimal digits, tens in the high nibble. */
  predicate Reads(v: byte, n: int) { v / 16 < 10 && v % 16 < 10 && v / 16 * 10 + v % 16 == n }

  lemma BcdDigits(n: nat)
    requires n < 100
    ensures ToBcd(n) < 256 && Reads(ToBcd(n), n)
  {
  }

  lemma TimeOfDay(secs: nat)
    ensures secs % SECONDS_PER_DAY % 60 == secs % 60 && secs % SECONDS_PER_DAY / 60 % 60 == secs / 60 % 60
    ensures secs % SECONDS_PER_DAY / 3600 == secs / 3600 % 24
  {
    var d, t := secs / SECONDS_PER_DAY, secs % SECONDS_PER_DAY;
    DivModUnique(secs, 60, d * 1440 + t / 60, t % 60);
    DivModUnique(d * 1440 + t / 60, 60, d * 24 + t / 60 / 60, t / 60 % 60);
    DivModUnique(secs, 3600, d * 24 + t / 3600, t % 3600);
    DivModUnique(d * 24 + t / 3600, 24, d, t / 3600);
  }

  /** What the registers of the clock show, by their numbers; 1970-01-01 was a Thursday, and Sunday is day 1. */
  lemma FieldsMean(secs: nat)
    requires secs < LIMIT
    ensures Reads(Field(secs, 0), secs % 60) && Reads(Field(secs, 2), secs / 60 % 60)
    ensures Reads(Field(secs, 4), secs / 3600 % 24)
    ensures var t := CivilFromDays(secs / 86400);
            && Reads(Field(secs, 7), t.day) && Reads(Field(secs, 8), t.month)
            && Reads(Field(secs, 9), t.year % 100) && Reads(Field(secs, 0x32), t.year / 100)
    ensures Reads(Field(secs, 6), (secs / 86400 + 4) % 7 + 1)
  {
    hide CivilFromDays, DaysFromCivil, ToBcd, Reads, Leap, FieldOf, ValidDate;
    var days := secs / SECONDS_PER_DAY;
    DayRoundTrip(days);
    YearRange(days);
    MonthDays(CivilFromDays(days));
    TimeFieldsMean(CivilFromDays(days), secs);
    DateFieldsMean(CivilFromDays(days), secs % SECONDS_PER_DAY);
    WeekdayDigit((days + 4) % 7);
  }

  lemma TimeFieldsMean(t: Date, secs: nat)
    requires t.year >= 0 && t.month >= 0 && t.day >= 0
    ensures var tod := secs % SECONDS_PER_DAY;
            && Reads(FieldOf(t, tod, 0), secs % 60) && Reads(FieldOf(t, tod, 2), secs / 60 % 60)
            && Reads(FieldOf(t, tod, 4), secs / 3600 % 24)
  {
    hide ToBcd, Reads;
    TimeOfDay(secs);
    BcdDigits(secs % 60);
    BcdDigits(secs / 60 % 60);
    BcdDigits(secs / 3600 % 24);
  }

  lemma DateFieldsMean(t: Date, tod: nat)
    requires 1970 <= t.year <= 2099 && 1 <= t.month <= 12 && 1 <= t.day <= 31
    ensures Reads(FieldOf(t, tod, 7), t.day) && Reads(FieldOf(t, tod, 8), t.month)
    ensures Reads(FieldOf(t, tod, 9), t.year % 100) && Reads(FieldOf(t, tod, 0x32), t.year / 100)
  {
    hide ToBcd, Reads;
    BcdDigits(t.day);
    BcdDigits(t.month);
    BcdDigits(t.year % 100);
    BcdDigits(t.year / 100);
  }

  lemma WeekdayDigit(n: nat)
    requires n < 7
    ensures ToBcd(n) + 1 < 256 && Reads(ToBcd(n) + 1, n + 1)
  {
  }

  /** The registers rewritten to `t` and `tod`; the rest stays. */
  function WithFields(data: seq<byte>, t: Date, tod: nat): (r: seq<byte>)
    requires |data| == 128 && t.year >= 0 && t.month >= 0 && t.day >= 0
    ensures |r| == 128 && forall reg :: reg in READ_REGS ==> r[reg] == FieldOf(t, tod, reg)
  {
    data[0x00 := FieldOf(t, tod, 0x00)][0x02 := FieldOf(t, tod, 0x02)][0x04 := FieldOf(t, tod, 0x04)]
        [0x07 := FieldOf(t, tod, 0x07)][0x08 := FieldOf(t, tod, 0x08)][0x09 := FieldOf(t, tod, 0x09)]
        [0x32 := FieldOf(t, tod, 0x32)]
  }

  ghost predicate Shows(data: seq<byte>, secs: nat)
    requires |data| == 128
  {
    forall reg :: reg in TIME_REGS ==> data[reg] == Field(secs, reg)
  }

  function Clamp(v: int, lo: int, hi: int): (c: int) {
    if v < lo then lo else if v > hi then hi else v
  }

  function CenturyOf(cc: nat): (c: nat) { if cc < 19 || cc > 20 then 20 else cc }

  /** The date and the second of the day the registers stand for; fields out of range are clamped. */
  function DateShown(data: seq<byte>): (t: Date)
    requires |data| == 128
  {
    Date(CenturyOf(FromBcd(data[0x32])) * 100 + Clamp(FromBcd(data[0x09]), 0, 99),
         Clamp(FromBcd(data[0x08]), 1, 12), Clamp(FromBcd(data[0x07]), 1, 31))
  }

  function TimeShown(data: seq<byte>): (n: nat)
    requires |data| == 128
  {
    Clamp(FromBcd(data[0x04]), 0, 23) * 3600 + Clamp(FromBcd(data[0x02]), 0, 59) * 60
    + Clamp(FromBcd(data[0x00]), 0, 59)
  }

  /** rtc_anchor_from_fields, in 32-bit arithmetic. */
  function AnchorOf(data: seq<byte>): (secs: nat)
    requires |data| == 128
    ensures secs < 0x1_0000_0000
  {
    var days := DaysFromCivil(DateShown(data));
    ((if days < 0 then 0 else days) * SECONDS_PER_DAY + TimeShown(data)) % 0x1_0000_0000
  }

  /** Registers that hold fields in range read back as those fields. */
  lemma DateRead(data: seq<byte>, t: Date, tod: nat)
    requires |data| == 128 && 1970 <= t.year <= 2099 && 1 <= t.month <= 12 && 1 <= t.day <= 31
    requires forall reg :: reg in READ_REGS ==> data[reg] == FieldOf(t, tod, reg)
    ensures DateShown(data) == t
  {
    hide ToBcd, FromBcd;
    assert data[0x07] == FieldOf(t, tod, 0x07) && data[0x08] == FieldOf(t, tod, 0x08);
    assert data[0x09] == FieldOf(t, tod, 0x09) && data[0x32] == FieldOf(t, tod, 0x32);
    BcdRoundTrip(t.day);
    BcdRoundTrip(t.month);
    BcdRoundTrip(t.year % 100);
    BcdRoundTrip(t.year / 100);
  }

  lemma TimeRead(data: seq<byte>, t: Date, tod: nat)
    requires |data| == 128 && t.year >= 0 && t.month >= 0 && t.day >= 0 && tod < SECONDS_PER_DAY
    requires forall reg :: reg in READ_REGS ==> data[reg] == FieldOf(t, tod, reg)
    ensures TimeShown(data) == tod
  {
    hide ToBcd, FromBcd;
    assert data[0x00] == FieldOf(t, tod, 0x00) && data[0x02] == FieldOf(t, tod, 0x02);
    assert data[0x04] == FieldOf(t, tod, 0x04);
    BcdRoundTrip(tod % 60);
    BcdRoundTrip(tod / 60 % 60);
    BcdRoundTrip(tod / 3600);
  }

  /** Registers that show a second stand for that second. */
  lemma ShownIsAnchored(data: seq<byte>, secs: nat)
    requires |data| == 128 && secs < LIMIT
    requires forall reg :: reg in READ_REGS ==> data[reg] == Field(secs, reg)
    ensures AnchorOf(data) == secs
  {
    hide CivilFromDays, DaysFromCivil, DateShown, TimeShown, FieldOf, Leap;
    var days := secs / SECONDS_PER_DAY;
    DayRoundTrip(days);
    YearRange(days);
    MonthDays(CivilFromDays(days));
    DateRead(data, CivilFromDays(days), secs % SECONDS_PER_DAY);
    TimeRead(data, CivilFromDays(days), secs % SECONDS_PER_DAY);
  }

  lemma MonthDays(t: Date)
    requires ValidDate(t)
    ensures 1 <= t.month <= 12 && 1 <= t.day <= 31
  {
  }

  /** Writing the fields of a second and decoding them gives the second back. */
  lemma FieldsDecode(data: seq<byte>, secs: nat)
    requires |data| == 128 && secs < LIMIT
    ensures var t := CivilFromDays(secs / SECONDS_PER_DAY);
            && 1970 <= t.year <= 2099 && t.month >= 1 && t.day >= 1
            && AnchorOf(WithFields(data, t, secs % SECONDS_PER_DAY)) == secs
  {
    hide CivilFromDays, DaysFromCivil, AnchorOf, FieldOf, WithFields, Leap;
    var days := secs / SECONDS_PER_DAY;
    DayRoundTrip(days);
    YearRange(days);
    MonthDays(CivilFromDays(days));
    ShownIsAnchored(WithFields(data, CivilFromDays(days), secs % SECONDS_PER_DAY), secs);
  }

  /** The clock goes on showing these registers after it has been anchored on them. */
  ghost predicate Stays(data: seq<byte>)
    requires |data| == 128
  {
    AnchorOf(data) < LIMIT && forall reg :: reg in READ_REGS ==> Field(AnchorOf(data), reg) == data[reg]
  }

  lemma ShownRange(data: seq<byte>)
    requires |data| == 128
    ensures var t := DateShown(data); 1900 <= t.year <= 2099 && 1 <= t.month <= 12 && 1 <= t.day <= 31
    ensures TimeShown(data) < SECONDS_PER_DAY
  {
  }

  lemma CalendarDay(t: Date)
    requires ValidDate(t) && 1970 <= t.year <= 2099
    ensures 0 <= DaysFromCivil(t) < 47482
  {
    hide DaysFromCivil, Leap;
    WithinYear(t);
    Epoch();
    YearsOrdered(1970, t.year);
    YearsOrdered(t.year + 1, 2100);
    YearsApart(t.year);
  }

  /** Re-anchoring keeps what the guest wrote exactly when it wrote a day of the calendar. */
  lemma StaysIffCalendarDay(data: seq<byte>, t: Date, tod: nat)
    requires |data| == 128 && tod < SECONDS_PER_DAY
    requires 1970 <= t.year <= 2099 && 1 <= t.month <= 12 && 1 <= t.day <= 31
    ensures Stays(WithFields(data, t, tod)) <==> ValidDate(t)
  {
    hide CivilFromDays, DaysFromCivil, DateShown, TimeShown, FieldOf, WithFields, ValidDate, AnchorOf;
    var r := WithFields(data, t, tod);
    DateRead(r, t, tod);
    TimeRead(r, t, tod);
    if Stays(r) {
      var days := AnchorOf(r) / SECONDS_PER_DAY;
      DayRoundTrip(days);
      YearRange(days);
      MonthDays(CivilFromDays(days));
      DateRead(r, CivilFromDays(days), AnchorOf(r) % SECONDS_PER_DAY);
    }
    if ValidDate(t) {
      DateRoundTrip(t);
      CalendarDay(t);
      AnchorParts(r);
    }
  }

  lemma AnchorParts(data: seq<byte>)
    requires |data| == 128 && 0 <= DaysFromCivil(DateShown(data)) < 47482
    ensures AnchorOf(data) < LIMIT && AnchorOf(data) / SECONDS_PER_DAY == DaysFromCivil(DateShown(data))
    ensures AnchorOf(data) % SECONDS_PER_DAY == TimeShown(data)
  {
    hide DaysFromCivil, DateShown, TimeShown;
    ShownRange(data);
  }

  class Cmos {
    const data: array<byte>
    var index: nat
    var anchorSec: nat
    var anchorUs: nat
    var cachedSec: nat
    var cacheValid: bool

    /** A cache marked valid shows the second it claims to show. */
    ghost predicate Valid()
      reads this, data
    {
      data.Length == 128 && index < 128 && (cacheValid ==> Shows(data[..], cachedSec))
    }

    /** REG_B_SET: the guest has frozen the registers. */
    predicate Frozen()
      requires data.Length == 128
      reads this, data
    {
      data[11] / 128 % 2 == 1
    }

    /** rtc_now_sec; the clock itself is a parameter. */
    function Now(us: nat): (secs: nat)
      requires us >= anchorUs
      reads this
    {
      (anchorSec + (us - anchorUs) / 1000000) % 0x1_0000_0000
    }

    /** rtc_fields_from_sec. */
    method FieldsFromSec(secs: nat)
      requires data.Length == 128
      modifies data
      ensures Shows(data[..], secs)
      ensures forall i :: 0 <= i < 128 && i !in TIME_REGS ==> data[i] == old(data[i])
    {
      hide Field;
      data[0x00] := Field(secs, 0x00);
      data[0x02] := Field(secs, 0x02);
      data[0x04] := Field(secs, 0x04);
      data[0x06] := Field(secs, 0x06);
      data[0x07] := Field(secs, 0x07);
      data[0x08] := Field(secs, 0x08);
      data[0x09] := Field(secs, 0x09);
      data[0x32] := Field(secs, 0x32);
    }

    /** cmos_update_time. */
    method UpdateTime(us: nat)
      requires Valid() && us >= anchorUs
      modifies `cachedSec, `cacheValid, data
      ensures Valid() && Frozen() == old(Frozen())
      ensures if Frozen() then data[..] == old(data[..]) else Shows(data[..], Now(us))
      ensures forall i :: 0 <= i < 128 && i !in TIME_REGS ==> data[i] == old(data[i])
    {
      hide Field;
      if data[11] / 128 % 2 == 1 { return; }
      var now := Now(us);
      if cacheValid && now == cachedSec { return; }
      FieldsFromSec(now);
      cachedSec, cacheValid := now, true;
    }

    /** cmos_ioport_read of the data port. */
    method ReadPort(us: nat) returns (v: byte)
      requires Valid() && us >= anchorUs
      modifies `cachedSec, `cacheValid, data
      ensures Valid() && v == data[index]
      ensures if old(Frozen()) || index !in TIME_REGS then v == old(data[index]) else v == Field(Now(us), index)
    {
      UpdateTime(us);
      v := data[index];
    }

    /** cmos_ioport_write of a time register: the rest is brought up to date, then the clock is re-anchored. */
    method WriteTime(val: byte, us: nat)
      requires Valid() && us >= anchorUs && index in TIME_REGS
      modifies `cachedSec, `cacheValid, `anchorSec, `anchorUs, data
      ensures Valid() && Frozen() == old(Frozen()) && data[index] == val
      ensures anchorSec == AnchorOf(data[..]) && anchorUs == us && Now(us) == anchorSec
      ensures old(Frozen()) ==> data[..] == old(data[..])[index := val]
      ensures !old(Frozen()) ==>
                forall reg :: reg in TIME_REGS && reg != index ==> data[reg] == Field(old(Now(us)), reg)
    {
      hide Field, AnchorOf;
      UpdateTime(us);
      data[index] := val;
      anchorSec, anchorUs := AnchorOf(data[..]), us;
      cacheValid := false;
    }

    /** With the registers frozen, the time and date fields may be written in any order. */
    method SetClock(order: seq<nat>, secs: nat, us: nat)
      requires Valid() && Frozen() && us >= anchorUs && secs < LIMIT
      requires forall i :: 0 <= i < |order| ==> order[i] in TIME_REGS
      requires forall reg :: reg in READ_REGS ==> reg in order
      modifies this, data
      ensures Valid() && Frozen() && us >= anchorUs && anchorSec == secs && Now(us) == secs
    {
      hide Field, AnchorOf;
      var i := 0;
      while i < |order|
        invariant 0 <= i <= |order| && Valid() && Frozen() && us >= anchorUs
        invariant forall j :: 0 <= j < i ==> data[order[j]] == Field(secs, order[j])
        invariant i > 0 ==> anchorSec == AnchorOf(data[..]) && Now(us) == anchorSec
      {
        index := order[i];
        WriteTime(Field(secs, order[i]), us);
        i := i + 1;
      }
      assert 0x00 in order;
      ShownIsAnchored(data[..], secs);
    }
  }

  /** Without freezing, an intermediate date can be no date: month 2 written on 31 January shows 3 March. */
  lemma UnfrozenWritesExample(data: seq<byte>, tod: nat)
    requires |data| == 128 && tod < SECONDS_PER_DAY
    ensures var r := WithFields(data, Date(1999, 1, 31), tod)[8 := 0x02];
            CivilFromDays(AnchorOf(r) / SECONDS_PER_DAY) == Date(1999, 3, 3)
  {
    hide DaysFromCivil, CivilFromDays, AnchorOf, TimeShown, DateShown, FieldOf, WithFields;
    var r := WithFields(data, Date(1999, 1, 31), tod)[8 := 0x02];
    MonthWritten(data, tod);
    DateRead(r, Date(1999, 2, 31), tod);
    FebruaryThirtyFirst();
    CalendarDay(Date(1999, 3, 3));
    AnchorParts(r);
    DateRoundTrip(Date(1999, 3, 3));
  }

  lemma MonthWritten(data: seq<byte>, tod: nat)
    requires |data| == 128
    ensures forall reg :: reg in READ_REGS ==>
              WithFields(data, Date(1999, 1, 31), tod)[8 := 0x02][reg] == FieldOf(Date(1999, 2, 31), tod, reg)
  {
    hide WithFields, FieldOf;
    forall reg | reg in READ_REGS
      ensures WithFields(data, Date(1999, 1, 31), tod)[8 := 0x02][reg] == FieldOf(Date(1999, 2, 31), tod, reg)
    {
      MonthFields(tod, reg);
    }
  }

  /** 31 January and 31 February differ in the month register only. */
  lemma MonthFields(tod: nat, reg: nat)
    requires reg in READ_REGS
    ensures FieldOf(Date(1999, 2, 31), tod, reg) == if reg == 8 then 2 else FieldOf(Date(1999, 1, 31), tod, reg)
  {
    hide ToBcd;
    FebruaryBcd();
  }

  lemma FebruaryBcd()
    ensures ToBcd(2) == 2
  {
  }

  lemma FebruaryThirtyFirst()
    ensures DaysFromCivil(Date(1999, 2, 31)) == DaysFromCivil(Date(1999, 3, 3))
  {
  }
}
