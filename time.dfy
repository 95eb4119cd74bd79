/** The handler's own gettimeofday and time (src/time.c): the file system
    library keeps Amiga time, counted in local time from 1978-01-01, and
    these convert it to Unix time, counted in UTC from 1970-01-01. The
    system clock and the GMT offset the library reports are parameters. */
module AmigaTime {

  /** Seconds from 1970-01-01 to 1978-01-01: 2922 days. */
  const UNIXTIMEOFFSET: int := 252460800

  /** The Unix seconds for `amigaSeconds` of local Amiga time, with the
      local zone `gmtoffset` minutes west of GMT. */
  function UnixSeconds(amigaSeconds: int, gmtoffset: int): (t: int)
    ensures t - UNIXTIMEOFFSET - gmtoffset * 60 == amigaSeconds
  {
    amigaSeconds + UNIXTIMEOFFSET + gmtoffset * 60
  }

  /** The reference conversion back: Amiga local seconds for a Unix time. */
  function AmigaSeconds(unixSeconds: int, gmtoffset: int): int {
    unixSeconds - gmtoffset * 60 - UNIXTIMEOFFSET
  }

  /** The two conversions are inverse, and 2922 days lie between the epochs. */
  lemma {:induction false} UnixSecondsRoundTrip(amiga: int, unix: int, gmtoffset: int)
    ensures AmigaSeconds(UnixSeconds(amiga, gmtoffset), gmtoffset) == amiga
    ensures UnixSeconds(AmigaSeconds(unix, gmtoffset), gmtoffset) == unix
    ensures UNIXTIMEOFFSET == 2922 * 86400
  {
  }

  /** Later Amiga times give later Unix times, one second for one second. */
  lemma {:induction false} UnixSecondsMonotone(a: int, b: int, gmtoffset: int)
    ensures UnixSeconds(b, gmtoffset) - UnixSeconds(a, gmtoffset) == b - a
  {
  }

  /** struct timeval behind a pointer. */
  class TimeValCell {
    var sec: int
    var usec: int

    constructor ()
      ensures sec == 0 && usec == 0
    {
      sec, usec := 0, 0;
    }
  }

  /** struct timezone behind a pointer. */
  class TimeZoneCell {
    var minuteswest: int
    var dsttime: int

    constructor ()
      ensures minuteswest == 0 && dsttime == 0
    {
      minuteswest, dsttime := 0, 0;
    }
  }

  /** time_t behind a pointer. */
  class TimeCell {
    var value: int

    constructor ()
      ensures value == 0
    {
      value := 0;
    }
  }

  /** gettimeofday: `clockSec`/`clockUsec` is what FbxGetSysTime reports.
      The seconds are shifted to Unix time, the microseconds kept; the time
      zone reports the offset and an unknown daylight saving state. A NULL
      pointer is skipped; the call always succeeds. */
  method GetTimeOfDay(clockSec: int, clockUsec: int, gmtoffset: int, tvp: TimeValCell?, tzp: TimeZoneCell?)
    returns (rc: int)
    modifies tvp, tzp
    ensures rc == 0
    ensures tvp != null ==> tvp.sec == UnixSeconds(clockSec, gmtoffset) && tvp.usec == clockUsec
    ensures tzp != null ==> tzp.minuteswest == gmtoffset && tzp.dsttime == -1
  {
    if tvp != null {
      tvp.sec, tvp.usec := clockSec, clockUsec;
      tvp.sec := tvp.sec + UNIXTIMEOFFSET + gmtoffset * 60;
    }
    if tzp != null {
      tzp.minuteswest := gmtoffset;
      tzp.dsttime := -1;
    }
    return 0;
  }

  /** time: the seconds of gettimeofday, also stored through `tp`. Since
      gettimeofday never fails, the -1 return is never taken. */
  method Time(clockSec: int, clockUsec: int, gmtoffset: int, tp: TimeCell?) returns (t: int)
    modifies tp
    ensures t == UnixSeconds(clockSec, gmtoffset)
    ensures tp != null ==> tp.value == t
  {
    var tv := new TimeValCell();
    var rc := GetTimeOfDay(clockSec, clockUsec, gmtoffset, tv, null);
    if rc < 0 {
      assert false;
      return -1;
    }
    if tp != null {
      tp.value := tv.sec;
    }
    return tv.sec;
  }
}
