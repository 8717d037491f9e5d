/** What main() in init/main.c computes before starting the kernel: the
    memory layout from the extended memory size the BIOS reported, and
    the boot time from the CMOS clock's BCD fields. */
module Boot {
  import opened FsDefs
  import opened MkTime

  /** The three addresses main() derives: the end of memory, the end of
      the buffer cache and the start of main memory. */
  datatype Layout = Layout(memoryEnd: int, bufferEnd: int, mainStart: int)

  /** memory_end = (1<<20) + (EXT_MEM_K<<10) rounded down to a page and
      capped at 16 MB; the buffer cache ends at 4 MB above 12 MB of memory,
      at 2 MB above 6 MB and at 1 MB otherwise; main memory starts after
      it, and after the RAM disk of ramdiskK kilobytes that rd_init
      reserves when one is configured (0 for none). */
  function MemoryLayout(extMemK: U16, ramdiskK: nat): (r: Layout)
  {
    var e := ((0x10_0000 + extMemK * 1024) / 4096) * 4096;
    var memoryEnd := if e > 16 * 1024 * 1024 then 16 * 1024 * 1024 else e;
    var bufferEnd := if memoryEnd > 12 * 1024 * 1024 then 4 * 1024 * 1024
                     else if memoryEnd > 6 * 1024 * 1024 then 2 * 1024 * 1024
                     else 1024 * 1024;
    Layout(memoryEnd, bufferEnd, bufferEnd + ramdiskK * 1024)
  }

  /** Memory ends on a page boundary between 1 MB and 16 MB, at the
      reported size when that is below 16 MB; the buffer cache is 1, 2 or
      4 MB and grows with memory; main memory starts right after it and
      the RAM disk. */
  lemma MemoryLayoutMeans(extMemK: U16, ramdiskK: nat)
    ensures var r := MemoryLayout(extMemK, ramdiskK);
      var size := 0x10_0000 + extMemK * 1024;
      r.memoryEnd % 4096 == 0 && 0x10_0000 <= r.memoryEnd <= 16 * 1024 * 1024 &&
      (size <= 16 * 1024 * 1024 ==> size - 4096 < r.memoryEnd <= size) &&
      (size > 16 * 1024 * 1024 ==> r.memoryEnd == 16 * 1024 * 1024) &&
      r.bufferEnd in {1024 * 1024, 2 * 1024 * 1024, 4 * 1024 * 1024} && r.bufferEnd <= r.memoryEnd
    ensures var r := MemoryLayout(extMemK, ramdiskK);
      r.mainStart == r.bufferEnd + ramdiskK * 1024
  {
  }

  /** More memory never gives a smaller buffer cache. */
  lemma BufferGrows(a: U16, b: U16, ramdiskK: nat)
    requires a <= b
    ensures MemoryLayout(a, ramdiskK).memoryEnd <= MemoryLayout(b, ramdiskK).memoryEnd
    ensures MemoryLayout(a, ramdiskK).bufferEnd <= MemoryLayout(b, ramdiskK).bufferEnd
  {
    var ea := 0x10_0000 + a * 1024;
    var eb := 0x10_0000 + b * 1024;
    assert ea / 4096 <= eb / 4096;
  }

  /** BCD_TO_BIN(val): the low digit plus ten times the high digit. */
  function BcdToBin(val: Byte): (r: int)
  {
    val % 16 + (val / 16) * 10
  }

  /** The BCD byte of a number below 100, as the CMOS clock stores it. */
  function ToBcd(n: int): (r: Byte)
    requires 0 <= n < 100
  {
    (n / 10) * 16 + n % 10
  }

  /** BCD_TO_BIN reads back every two-digit number the clock can hold. */
  lemma BcdRoundTrip(n: int)
    requires 0 <= n < 100
    ensures BcdToBin(ToBcd(n)) == n
  {
    var b := ToBcd(n);
    assert b % 16 == n % 10 && b / 16 == n / 10;
  }

  /** The clock's fields as time_init reads them from CMOS registers 0,
      2, 4, 7, 8 and 9. */
  datatype CmosTime = CmosTime(sec: Byte, min: Byte, hour: Byte, mday: Byte, mon: Byte, year: Byte)

  /** time_init: each field converted from BCD and the month made 0-based. */
  function TimeInit(c: CmosTime): (r: Tm)
    ensures r.mon == BcdToBin(c.mon) - 1 && r.year == BcdToBin(c.year) && r.sec == BcdToBin(c.sec)
  {
    Tm(BcdToBin(c.sec), BcdToBin(c.min), BcdToBin(c.hour), BcdToBin(c.mday), BcdToBin(c.mon) - 1, BcdToBin(c.year))
  }

  /** The fields of a clock that stores a date as BCD come back as the
      date. */
  lemma TimeInitMeans(sec: int, min: int, hour: int, mday: int, mon: int, year: int)
    requires 0 <= sec < 100 && 0 <= min < 100 && 0 <= hour < 100 && 0 <= mday < 100 && 0 <= mon < 100
    requires 0 <= year < 100
    ensures TimeInit(CmosTime(ToBcd(sec), ToBcd(min), ToBcd(hour), ToBcd(mday), ToBcd(mon), ToBcd(year))) ==
            Tm(sec, min, hour, mday, mon - 1, year)
  {
    BcdRoundTrip(sec);
    BcdRoundTrip(min);
    BcdRoundTrip(hour);
    BcdRoundTrip(mday);
    BcdRoundTrip(mon);
    BcdRoundTrip(year);
  }

  /** startup_time = kernel_mktime(&time). */
  function StartupTime(c: CmosTime): (r: int)
    requires 1 <= BcdToBin(c.mon) <= 12
    ensures r == KernelMktime(TimeInit(c))
  {
    KernelMktime(TimeInit(c))
  }
}
