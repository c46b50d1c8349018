/**
 * The schedule engine: the in-memory schedule (day name to ring times), its
 * replacement and persistence, the "remaining rings today" report and the
 * per-minute decision to ring the bell.
 *
 * The JSON document is abstracted to the map it denotes; `deserializeJson` is
 * the uninterpreted function `parse`.
 */
module Scheduling {
  import opened ArduinoString
  import opened Eeprom
  import opened TimeOfDay

  /** Day name to the ring times listed for that day, in the order they were stored. */
  type Schedule = map<string, seq<string>>

  const WEEK: seq<string> := ["sunday", "monday", "tuesday", "wednesday", "thursday", "friday", "saturday"]
  const NO_MORE_RINGS: string := "No more rings today"
  /** The EEPROM size the engine's constructor asks for. */
  const EEPROM_SIZE: nat := 2048

  /** `dayOfWeekStr`: 1 is Sunday, ..., 7 is Saturday; any other number has the empty name. */
  function DayName(day: int): (name: string)
    ensures 1 <= day <= 7 ==> name == WEEK[day - 1]
    ensures !(1 <= day <= 7) ==> name == ""
  {
    if day == 1 then "sunday"
    else if day == 2 then "monday"
    else if day == 3 then "tuesday"
    else if day == 4 then "wednesday"
    else if day == 5 then "thursday"
    else if day == 6 then "friday"
    else if day == 7 then "saturday"
    else ""
  }

  /** The ring times listed for the day, none when the day is not a key. */
  function TodayTimes(s: Schedule, day: int): seq<string>
  {
    if DayName(day) in s then s[DayName(day)] else []
  }

  /** The ring decision: the day is a key and one of its times is `now`, character for character. */
  predicate RingsAt(s: Schedule, day: int, now: string)
  {
    DayName(day) in s && now in s[DayName(day)]
  }

  /** The times that compare greater than `now` as strings, in stored order. */
  function Later(times: seq<string>, now: string): (r: seq<string>)
    decreases |times|
  {
    if times == [] then []
    else
      var last := times[|times| - 1];
      Later(times[..|times| - 1], now) + if Less(now, last) then [last] else []
  }

  /** The entries joined with commas. */
  function Join(xs: seq<string>): string
    decreases |xs|
  {
    if xs == [] then ""
    else if |xs| == 1 then xs[0]
    else Join(xs[..|xs| - 1]) + "," + xs[|xs| - 1]
  }

  /** What `getTodayRemainingRingTimes` answers on day `day` at time `now`. */
  function RemainingReport(s: Schedule, day: int, now: string): string
  {
    var later := Later(TodayTimes(s, day), now);
    if later == [] then NO_MORE_RINGS else Join(later)
  }

  /** The schedule held after `loadScheduleFromEEPROM` on buffer `m`, starting from `current`. */
  function BootSchedule(m: seq<byte>, parse: string -> Schedule, current: Schedule): Schedule
  {
    var stored := RingScheduleOf(m);
    if |stored| > 0 && stored[0] != ERASED_CHAR then parse(stored) else current
  }

  class ScheduleManager {
    var currentSchedule: Schedule
    /** Relay activations so far; each one holds the bell for the configured duration. */
    var rings: nat
    const store: EepromLayoutManager
    /** `deserializeJson` into the schedule document. */
    const parse: string -> Schedule

    /** Starts the EEPROM with 2048 bytes and loads the stored schedule into an empty one. */
    constructor (store: EepromLayoutManager, parse: string -> Schedule)
      requires store.Valid()
      modifies store
      ensures this.store == store && this.parse == parse
      ensures store.Valid() && store.flash == old(store.flash)
      ensures store.mem.Length == EEPROM_SIZE && store.mem[..] == store.flash[..EEPROM_SIZE]
      ensures currentSchedule == BootSchedule(store.mem[..], parse, map[])
      ensures rings == 0
    {
      this.store := store;
      this.parse := parse;
      currentSchedule := map[];
      rings := 0;
      new;
      var _ := store.Begin(EEPROM_SIZE);
      LoadScheduleFromEeprom();
    }

    /** `updateSchedule`: the parsed payload replaces the whole schedule; nothing is persisted. */
    method UpdateSchedule(jsonSchedule: string)
      modifies this`currentSchedule
      ensures currentSchedule == parse(jsonSchedule)
    {
      currentSchedule := parse(jsonSchedule);
    }

    /**
     * `saveSchedule`: the parsed payload replaces the schedule, then the raw
     * payload goes to the schedule slot; the result is only the commit's, and
     * the new schedule is kept even when the commit fails.
     */
    method SaveSchedule(jsonSchedule: string, committed: bool) returns (ok: bool)
      requires store.Valid()
      modifies this`currentSchedule, store.mem, store`flash
      ensures store.Valid()
      ensures currentSchedule == parse(jsonSchedule)
      ensures store.mem[..] == Stored(old(store.mem[..]), jsonSchedule, SCHEDULE_ADDR)
      ensures ok == committed
      ensures store.flash == if ok then Flushed(old(store.flash), store.mem[..]) else old(store.flash)
    {
      currentSchedule := parse(jsonSchedule);
      ok := store.SaveRingSchedule(jsonSchedule, committed);
    }

    /**
     * `getTodayRemainingRingTimes`: today's times later than the `HH:MM` cut
     * from the clock's date-time string, comma-joined in stored order, or the
     * "No more rings today" sentinel.
     */
    method GetTodayRemainingRingTimes(day: int, dateTime: string) returns (r: string)
      ensures r == RemainingReport(currentSchedule, day, Substring(dateTime, 11, 16))
    {
      var result := "";
      var currentTime := Substring(dateTime, 11, 16);
      var today := DayName(day);
      if today in currentSchedule {
        var times := currentSchedule[today];
        for i := 0 to |times|
          invariant result == Join(Later(times[..i], currentTime))
          invariant result == "" <==> Later(times[..i], currentTime) == []
        {
          var ringTime := times[i];
          ghost var before := Later(times[..i], currentTime);
          assert times[..i + 1][..i] == times[..i];
          if Less(currentTime, ringTime) {
            assert Later(times[..i + 1], currentTime) == before + [ringTime];
            assert (before + [ringTime])[..|before|] == before;
            if result != "" {
              result := result + ",";
            }
            result := result + ringTime;
          } else {
            assert Later(times[..i + 1], currentTime) == before;
          }
        }
        assert times[..|times|] == times;
      }
      if result == "" {
        r := NO_MORE_RINGS;
      } else {
        r := result;
      }
    }

    /** `shouldRingNow`: searches today's times for the formatted clock reading. */
    method ShouldRingNow(day: int, hour: nat, minute: nat) returns (ring: bool)
      ensures ring == RingsAt(currentSchedule, day, GetTime(hour, minute))
    {
      var dayOfWeek := DayName(day);
      var currentTime := GetTime(hour, minute);
      if dayOfWeek in currentSchedule {
        var times := currentSchedule[dayOfWeek];
        for i := 0 to |times|
          invariant currentTime !in times[..i]
        {
          if currentTime == times[i] {
            return true;
          }
          assert times[..i + 1] == times[..i] + [times[i]];
        }
        assert times[..|times|] == times;
      }
      return false;
    }

    /** `handleRing`: activates the relay exactly when the ring decision holds; it keeps no memory of past rings. */
    method HandleRing(day: int, hour: nat, minute: nat)
      modifies this`rings
      ensures rings == old(rings) + if RingsAt(currentSchedule, day, GetTime(hour, minute)) then 1 else 0
    {
      var ring := ShouldRingNow(day, hour, minute);
      if ring {
        rings := rings + 1;
      }
    }

    /** `loadScheduleFromEEPROM`: parses the stored string unless it is empty or starts with the erased byte. */
    method LoadScheduleFromEeprom()
      modifies this`currentSchedule
      ensures currentSchedule == BootSchedule(store.mem[..], parse, old(currentSchedule))
    {
      var schedule := store.LoadRingSchedule();
      if |schedule| > 0 && schedule[0] != ERASED_CHAR {
        currentSchedule := parse(schedule);
      }
    }
  }

  /** Two ticks in the same minute of a scheduled time both ring the bell. */
  method SameMinuteTicksBothRing(engine: ScheduleManager, day: int, hour: nat, minute: nat)
    requires RingsAt(engine.currentSchedule, day, GetTime(hour, minute))
    modifies engine`rings
    ensures engine.rings == old(engine.rings) + 2
  {
    engine.HandleRing(day, hour, minute);
    engine.HandleRing(day, hour, minute);
  }

  /** The documented weekday numbers 1..7 name seven distinct, non-empty days. */
  lemma WeekdaysNamed(d1: int, d2: int)
    requires 1 <= d1 <= 7 && 1 <= d2 <= 7
    ensures DayName(d1) in WEEK && DayName(d1) != ""
    ensures DayName(d1) == DayName(d2) ==> d1 == d2
  {
  }

  /** `Later` keeps exactly the times greater than `now`. */
  lemma {:induction false} LaterMembers(times: seq<string>, now: string, t: string)
    ensures t in Later(times, now) <==> t in times && Less(now, t)
    decreases |times|
  {
    if times != [] {
      var init, last := times[..|times| - 1], times[|times| - 1];
      LaterMembers(init, now, t);
      assert times == init + [last];
    }
  }

  /** `Later` distributes over concatenation: it keeps the stored order and does not sort. */
  lemma {:induction false} LaterAppend(a: seq<string>, b: seq<string>, now: string)
    ensures Later(a + b, now) == Later(a, now) + Later(b, now)
    decreases |b|
  {
    if b == [] {
      assert a + b == a;
    } else {
      var init, last := b[..|b| - 1], b[|b| - 1];
      assert (a + b)[..|a + b| - 1] == a + init;
      LaterAppend(a, init, now);
    }
  }

  /** An entry later than `now` is never empty. */
  lemma LaterNonEmpty(now: string, t: string)
    requires Less(now, t)
    ensures t != []
  {
  }

  /**
   * "No more rings today" answers both a day with no key and a day whose
   * times are all at or before `now`; the caller cannot tell them apart.
   */
  lemma NoMoreRingsCases(s: Schedule, day: int, now: string)
    ensures DayName(day) !in s ==> RemainingReport(s, day, now) == NO_MORE_RINGS
    ensures DayName(day) in s && (forall i :: 0 <= i < |s[DayName(day)]| ==> !Less(now, s[DayName(day)][i]))
      ==> RemainingReport(s, day, now) == NO_MORE_RINGS
  {
    var times := TodayTimes(s, day);
    if Later(times, now) != [] {
      var t := Later(times, now)[0];
      LaterMembers(times, now, t);
    }
  }

  /** A well-formed `HH:MM` string: two digits, ':', two digits. */
  predicate IsTimeString(t: string)
  {
    |t| == 5 && t[2] == ':' && forall i :: 0 <= i < 5 && i != 2 ==> '0' <= t[i] <= '9'
  }

  lemma TimeStringIsGetTime(t: string, hour: nat, minute: nat)
    requires IsTimeString(t) && IsValidTime(hour, minute)
    requires ParseTime(t) == (hour, minute)
    ensures t == GetTime(hour, minute)
  {
    GetTimeShape(hour, minute);
    var g := GetTime(hour, minute);
    assert DigitValue(t[0]) == hour / 10 && DigitValue(t[1]) == hour % 10;
    assert DigitValue(t[3]) == minute / 10 && DigitValue(t[4]) == minute % 10;
    assert forall i :: 0 <= i < 5 ==> t[i] == g[i];
  }

  /**
   * At a valid clock reading the bell rings exactly when today's list holds a
   * well-formed `HH:MM` entry naming that hour and minute; an entry spelled
   * any other way ("7:30", "07:30:00") never matches.
   */
  lemma RingsAtScheduledMinute(s: Schedule, day: int, hour: nat, minute: nat)
    requires IsValidTime(hour, minute)
    ensures RingsAt(s, day, GetTime(hour, minute)) <==>
      DayName(day) in s &&
      exists i :: 0 <= i < |s[DayName(day)]| && IsTimeString(s[DayName(day)][i])
                  && ParseTime(s[DayName(day)][i]) == (hour, minute)
  {
    GetTimeShape(hour, minute);
    ParseGetTime(hour, minute);
    if DayName(day) in s {
      var times := s[DayName(day)];
      if exists i :: 0 <= i < |times| && IsTimeString(times[i]) && ParseTime(times[i]) == (hour, minute) {
        var i :| 0 <= i < |times| && IsTimeString(times[i]) && ParseTime(times[i]) == (hour, minute);
        TimeStringIsGetTime(times[i], hour, minute);
      }
      if GetTime(hour, minute) in times {
        var i :| 0 <= i < |times| && times[i] == GetTime(hour, minute);
        assert IsTimeString(times[i]) && ParseTime(times[i]) == (hour, minute);
      }
    }
  }

  /**
   * The persisted copy is a faithful backup: a schedule payload saved through
   * `saveSchedule` is parsed again to the same schedule at the next boot,
   * provided it is shorter than the 1000 characters the loader reads.
   */
  lemma SavedScheduleReloads(m: seq<byte>, json: string, parse: string -> Schedule, current: Schedule)
    requires 0 < |json| < SCHEDULE_MAX_LEN && SCHEDULE_ADDR + |json| < |m|
    requires IsByteString(json) && NulFree(json) && json[0] != ERASED_CHAR
    ensures BootSchedule(Stored(m, json, SCHEDULE_ADDR), parse, current) == parse(json)
  {
    SlotRoundTrip(m, json, SCHEDULE_ADDR, SCHEDULE_MAX_LEN, "");
  }

  /**
   * Nothing limits the schedule payload: one of 1000 characters or more is
   * cut to its first 1000 at the next boot. With the salt slot placed at 1600,
   * the payload's tail then runs into it.
   */
  lemma LongScheduleOverrunsSalt(m: seq<byte>, json: string)
    requires |json| >= SCHEDULE_MAX_LEN && SCHEDULE_ADDR + |json| < |m|
    requires IsByteString(json) && NulFree(json)
    ensures LoadedString(Stored(m, json, SCHEDULE_ADDR), SCHEDULE_ADDR, SCHEDULE_MAX_LEN) == json[..SCHEDULE_MAX_LEN]
    ensures SaltOf(Stored(m, json, SCHEDULE_ADDR)) == json[SCHEDULE_MAX_LEN..][..Min(FIELD_MAX_LEN, |json| - SCHEDULE_MAX_LEN)]
  {
    StringRoundTrip(m, json, SCHEDULE_ADDR, SCHEDULE_MAX_LEN);
    LoadAfterStore(m, json, SCHEDULE_ADDR, SCHEDULE_MAX_LEN, FIELD_MAX_LEN);
  }

  /** Booting from never-written flash, or after `wipeSavedSchedule`, keeps the schedule it started with. */
  lemma BlankSlotKeepsSchedule(m: seq<byte>, parse: string -> Schedule, current: Schedule)
    requires (AllErased(m) && INITIALIZED_ADDR + 4 <= |m|) || RingScheduleOf(m) == ""
    ensures BootSchedule(m, parse, current) == current
  {
    if AllErased(m) && INITIALIZED_ADDR + 4 <= |m| {
      ErasedStoreDefaults(m);
    }
  }
}
