# BellSystem core in Dafny

A model of the decision and persistence core of the BellSystem bell
controller, an ESP8266 firmware that rings a school bell through a relay at
scheduled times of day. The model has four parts:

- **Persistence layer** (`eeprom.dfy`, module `Eeprom`): `EEPROMLayoutManager`.
  It keeps strings and ints at fixed slot addresses in the emulated EEPROM.
  - The class `EepromLayoutManager` has the driver's RAM buffer as an
    `array<byte>` (`mem`) and the flash sector that backs it as a
    `seq<byte>` (`flash`).
  - `saveString` and `loadString` are loops over that array.
  - `commit` copies the buffer into the sector. Whether the driver reports
    success is a parameter.
  - Each typed loader is tied to a function of the buffer (`RingScheduleOf`,
    `DeviceNameOf`, ...). Those functions state the erased-flash defaults and
    the clamping.
- **Schedule engine** (`scheduling.dfy`, module `Scheduling`): `ScheduleManager`.
  - The schedule is the map the JSON document denotes, from day name to the
    ring times in stored order.
  - The engine replaces that map, persists it, reloads it at boot, reports
    the remaining rings of the day and decides once per tick whether to
    ring. Relay activations are counted in `rings`.
- **Credentials and session** (`authentication.dfy`, module `Authentication`): `AuthManager`.
  - The salted SHA-256 password hash and its salt are kept in the EEPROM.
  - A single bearer token is kept with the `millis()` reading at which it
    was issued. Token validity is checked in unsigned 32-bit time.
- **Time formatting** (`time_of_day.dfy`, module `TimeOfDay`): `TimeManager::getTime`.
  - It writes `HH:MM` with zero padding.
  - Its lemmas show that the schedule engine's string `>` between two such
    strings is chronological order.

`arduino_string.dfy` (module `ArduinoString`) holds the small parts of the
Arduino `String` class and the C library that these files rely on:
- characters stored as bytes;
- `strcmp` order;
- decimal and hex conversion;
- `substring`.

Foreign code and hardware are parameters:
- SHA-256 is the uninterpreted function `sha256` from bytes to a 32-byte
  digest.
- `deserializeJson` is the uninterpreted function `parse` from text to a
  schedule.
- The raw values behind `random()`, and the readings of `millis()` and
  `micros()`, are method inputs. The same holds for each `EEPROM.commit()`
  verdict and for the clock's day, hour and minute.

The EEPROM follows the ESP8266 core's driver:
- a `read` outside the buffer gives 0;
- a `write` or `put` outside it does nothing;
- `begin(n)` copies the first `n` bytes of the 4096-byte sector, with a
  size of 0 ignored.

The header `src/board/EEPROMLayoutManager.h` does not declare the salt and
initialized-flag slots. The model puts them at 1600 and 1700, after the
1000 bytes the schedule loader reads from 600 and inside the 2048 bytes the
engine requests.

The model follows the code as written, including these behaviours:
- No schedule is validated, sorted or de-duplicated. `LaterAppend` shows
  that the remaining-rings report keeps the stored order.
- `saveSchedule` swaps in the new schedule before persisting it, and keeps
  it even when the commit fails.
- `handleRing` keeps no record of the last minute it fired.
  `SameMinuteTicksBothRing` shows two ticks in one minute both ring.
- The bootstrap writes the initialized flag as `false`, so it runs again at
  every boot (`BootstrapRepeats`).
- The empty token is accepted during the first hour after power-on
  (`EmptyTokenAcceptedInFirstHour`).
- `updatePassword` leaves the current session valid.
- Slot widths are not enforced: a long device name runs into the URL slot
  (`LongDeviceNameOverwritesUrl`). With the salt slot placed at 1600, a long
  schedule runs into it (`LongScheduleOverrunsSalt`).

## Model

| member | source | states |
|---|---|---|
| ArduinoString.Bytes | src/web/AuthManager.cpp:68-69 | the bytes handed to SHA-256 are one per character, each the character truncated to 8 bits; for a string of byte-sized characters no information is lost, since each byte reads back as its character |
| ArduinoString.BytesAppend | src/web/AuthManager.cpp:68-69 | the bytes of salt followed by password are the salt's bytes followed by the password's |
| ArduinoString.CharOfByteOf | src/board/EEPROMLayoutManager.cpp:127-139 | a character that fits a byte comes back unchanged after a write and a read, and a non-NUL one is never stored as the terminator |
| ArduinoString.Less | src/schedule/scheduleManager.cpp:44 | `strcmp(a, b) < 0` never holds for equal strings, and holds whenever `a` is a proper prefix of `b` |
| ArduinoString.LessTotalOrder | src/schedule/scheduleManager.cpp:44 | `strcmp` order is asymmetric and total: of two distinct strings exactly one is smaller |
| ArduinoString.LessTransitive | src/schedule/scheduleManager.cpp:44 | `strcmp` order is transitive |
| ArduinoString.Decimal | src/schedule/TimeManager.cpp:29-30 | `String(n)` is one character exactly when `n` is below 10, and for 10..99 is the tens digit then the units digit |
| ArduinoString.HexString | src/web/AuthManager.cpp:76 | `String(b, HEX)` is one digit exactly when `b` is below 16, and for 16..255 is the digit of `b / 16` then the digit of `b % 16` |
| ArduinoString.Substring | src/schedule/scheduleManager.cpp:32 | `substring(l, r)` never exceeds the string, and within bounds is exactly the characters from `l` to `r` |
| Eeprom.LoadedString | src/board/EEPROMLayoutManager.cpp:134-144 | a loaded string has at most `maxLen` characters and never contains NUL |
| Eeprom.RingDuration | src/board/EEPROMLayoutManager.cpp:47-57 | the ring duration is always in 1..10; a stored value in 1..10 is returned, anything else (0, negative, erased -1, above 10) gives 2 |
| Eeprom.InitializedFlag | src/board/EEPROMLayoutManager.cpp:114-121 | the flag is true exactly when the stored int is 1 |
| Eeprom.EepromLayoutManager.constructor | src/board/EEPROMLayoutManager.cpp:12 | at power-on the sector holds what the flash held and no buffer is mapped yet |
| Eeprom.EepromLayoutManager.Begin | src/board/EEPROMLayoutManager.cpp:14-17 | `begin(n)` maps a fresh buffer holding the first `n` bytes of the sector (at most 4096); the result is always true |
| Eeprom.EepromLayoutManager.Write | src/board/EEPROMLayoutManager.cpp:128-130 | a write changes exactly the one byte addressed, and nothing when the address is outside the buffer |
| Eeprom.EepromLayoutManager.Commit | src/board/EEPROMLayoutManager.cpp:131 | the result is the driver's verdict; on success the sector holds the buffer followed by erased bytes (0xFF), on failure it is unchanged |
| Eeprom.EepromLayoutManager.SaveString | src/board/EEPROMLayoutManager.cpp:124-132 | bytes `a..a+|s|-1` hold the string and byte `a+|s|` a NUL; every other byte is unchanged; the result is the commit's |
| Eeprom.EepromLayoutManager.LoadString | src/board/EEPROMLayoutManager.cpp:134-144 | returns the characters from `a` up to the first NUL, at most `maxLen` of them |
| Eeprom.EepromLayoutManager.SaveInt | src/board/EEPROMLayoutManager.cpp:146-149 | the four little-endian two's-complement bytes of the int replace bytes `a..a+3`, or nothing changes when they do not fit; the result is the commit's |
| Eeprom.EepromLayoutManager.LoadInt | src/board/EEPROMLayoutManager.cpp:151-156 | returns the int the four bytes at `a` encode |
| Eeprom.EepromLayoutManager.SaveRingSchedule | src/board/EEPROMLayoutManager.cpp:22-26 | the schedule text is saved as a string at 600; the result is only the commit's |
| Eeprom.EepromLayoutManager.WipeSavedSchedule | src/board/EEPROMLayoutManager.cpp:29-31 | the buffer is exactly the old one with the empty string saved at 600, that is a single NUL there, so the schedule then loads as ""; the sector follows the commit verdict |
| Eeprom.EepromLayoutManager.LoadRingSchedule | src/board/EEPROMLayoutManager.cpp:33-40 | up to 1000 characters from 600; "" when the first one is 0xFF, so the result never starts with 0xFF |
| Eeprom.EepromLayoutManager.SaveRingDuration | src/board/EEPROMLayoutManager.cpp:43-45 | the duration is put as an int at 100 |
| Eeprom.EepromLayoutManager.LoadRingDuration | src/board/EEPROMLayoutManager.cpp:47-57 | returns the clamped duration of the int at 100, always in 1..10 |
| Eeprom.EepromLayoutManager.SaveDeviceName | src/board/EEPROMLayoutManager.cpp:60-62 | the name is saved as a string at 200 |
| Eeprom.EepromLayoutManager.LoadDeviceName | src/board/EEPROMLayoutManager.cpp:64-71 | up to 100 characters from 200, or "bellsystem" when the first one is 0xFF |
| Eeprom.EepromLayoutManager.LoadUniqueUrl | src/board/EEPROMLayoutManager.cpp:74-81 | up to 100 characters from 300, or "bellsystem" when the first one is 0xFF |
| Eeprom.EepromLayoutManager.SaveUniqueUrl | src/board/EEPROMLayoutManager.cpp:83-85 | the URL is saved as a string at 300 |
| Eeprom.EepromLayoutManager.SavePassword | src/board/EEPROMLayoutManager.cpp:88-90 | the password hash is saved as a string at 400 |
| Eeprom.EepromLayoutManager.LoadPassword | src/board/EEPROMLayoutManager.cpp:92-99 | up to 100 characters from 400, or "password" when the first one is 0xFF |
| Eeprom.EepromLayoutManager.SaveSalt | src/board/EEPROMLayoutManager.cpp:101-103 | the salt is saved as a string in the salt slot |
| Eeprom.EepromLayoutManager.LoadSalt | src/board/EEPROMLayoutManager.cpp:105-108 | up to 100 characters from the salt slot, with no default |
| Eeprom.EepromLayoutManager.SaveInitialized | src/board/EEPROMLayoutManager.cpp:110-112 | the flag is put as the int 1 or 0, and then loads back as the same flag |
| Eeprom.EepromLayoutManager.LoadInitialized | src/board/EEPROMLayoutManager.cpp:114-121 | true exactly when the int in the flag slot is 1 |
| Eeprom.Flushed | src/board/EEPROMLayoutManager.cpp:131 | a committed sector keeps its size, starts with the buffer and reads 0xFF past it |
| Eeprom.FlushedOverwrites | src/board/EEPROMLayoutManager.cpp:131 | a second commit of a same-sized buffer wipes out the first: only the last committed buffer shows in the sector |
| Eeprom.LoadedStringWindow | src/board/EEPROMLayoutManager.cpp:136-140 | `loadString(a, n)` reads nothing outside `[a, a+n)`: buffers that agree there load the same string |
| Eeprom.PutIntLeavesStringsBelow | src/board/EEPROMLayoutManager.cpp:146-149 | putting an int leaves every string that ends before it loading as before |
| Eeprom.LoadAfterStore | src/board/EEPROMLayoutManager.cpp:124-144 | loading from inside a saved string gives that string's suffix, capped at the read limit |
| Eeprom.StringRoundTrip | src/board/EEPROMLayoutManager.cpp:124-144 | a saved NUL-free string shorter than `n` loads back whole; a longer one loads as its first `n` characters |
| Eeprom.StoreLeavesOtherSlots | src/board/EEPROMLayoutManager.cpp:124-132 | saving a string leaves every string that ends before it, or starts after its NUL, loading as before |
| Eeprom.LongDeviceNameOverwritesUrl | src/board/EEPROMLayoutManager.cpp:60-62 | a device name of 100 or more characters makes the URL slot load the name's tail |
| Eeprom.SlotRoundTrip | src/board/EEPROMLayoutManager.cpp:64-99 | a slot with a default loads back the saved string unless it starts with 0xFF, in which case the default comes back |
| Eeprom.WipedScheduleLoadsEmpty | src/board/EEPROMLayoutManager.cpp:29-40 | after the wipe the schedule loads as "" |
| Eeprom.IntRoundTrip | src/board/EEPROMLayoutManager.cpp:146-156 | `loadInt(a)` after `saveInt(v, a)` returns `v` |
| Eeprom.IntBytesRoundTrip | src/board/EEPROMLayoutManager.cpp:147-153 | every 32-bit int is reassembled from its four bytes unchanged, negative ones included |
| Eeprom.UnsignedOfIntBytes | src/board/EEPROMLayoutManager.cpp:147 | the four bytes are the base-256 digits of the int modulo 2^32 |
| Eeprom.ErasedStoreDefaults | src/board/EEPROMLayoutManager.cpp:33-121 | never-written flash loads as no schedule, name and URL "bellsystem", password "password", duration 2 and flag unset |
| Eeprom.ErasedSlotLoadsErasedChar | src/board/EEPROMLayoutManager.cpp:134-140 | an erased slot loads a non-empty string starting with 0xFF |
| TimeOfDay.GetTime | src/schedule/TimeManager.cpp:27-39 | for a valid hour and minute the time is the hour's two digits, ':', and the minute's two digits |
| TimeOfDay.PadDecimal | src/schedule/TimeManager.cpp:33-34 | a value below 100, padded, is exactly its two decimal digits |
| TimeOfDay.GetTimeShape | src/schedule/TimeManager.cpp:29-36 | for hour 0..23 and minute 0..59 the time is five characters: two digits, ':', two digits |
| TimeOfDay.ParseGetTime | src/schedule/TimeManager.cpp:29-36 | reading back the `HH` and `MM` fields gives the hour and minute |
| TimeOfDay.GetTimeInjective | src/schedule/TimeManager.cpp:29-36 | distinct valid times format to distinct strings |
| TimeOfDay.LessCons | src/schedule/scheduleManager.cpp:44 | `strcmp` decides on the first character unless it is equal |
| TimeOfDay.LessTwoDigits | src/schedule/TimeManager.cpp:33-36 | two-digit fields compare as their values |
| TimeOfDay.GetTimeOrder | src/schedule/TimeManager.cpp:33-36 | `getTime(h1, m1) < getTime(h2, m2)` as strings exactly when (h1, m1) is earlier than (h2, m2) |
| Scheduling.DayName | src/schedule/scheduleManager.cpp:108-127 | 1..7 name sunday..saturday in order; every other number gives "" |
| Scheduling.ScheduleManager.constructor | src/schedule/scheduleManager.cpp:12-15 | begins the EEPROM with 2048 bytes of the sector and loads the stored schedule into an empty one; no ring yet |
| Scheduling.ScheduleManager.UpdateSchedule | src/schedule/scheduleManager.cpp:18-20 | the parsed payload replaces the whole schedule; nothing else changes, nothing is persisted |
| Scheduling.ScheduleManager.SaveSchedule | src/schedule/scheduleManager.cpp:23-26 | the parsed payload replaces the schedule, the raw payload is saved at 600, and the result is only the commit's |
| Scheduling.ScheduleManager.GetTodayRemainingRingTimes | src/schedule/scheduleManager.cpp:29-59 | the comma-joined times of today later than the `HH:MM` cut from the date-time, in stored order, or "No more rings today" |
| Scheduling.ScheduleManager.ShouldRingNow | src/schedule/scheduleManager.cpp:83-105 | true exactly when today's key is present and one of its entries equals the formatted current time |
| Scheduling.ScheduleManager.HandleRing | src/schedule/scheduleManager.cpp:72-78 | the relay fires once exactly when the ring decision holds |
| Scheduling.ScheduleManager.LoadScheduleFromEeprom | src/schedule/scheduleManager.cpp:130-135 | parses the stored text unless it is empty or starts with 0xFF, in which case the schedule is unchanged |
| Scheduling.SameMinuteTicksBothRing | src/schedule/scheduleManager.cpp:72-78 | two ticks in one scheduled minute both fire the relay |
| Scheduling.WeekdaysNamed | src/schedule/TimeManager.cpp:50-55 | each documented weekday 1..7 has a distinct non-empty name |
| Scheduling.LaterMembers | src/schedule/scheduleManager.cpp:42-51 | the report keeps exactly today's entries greater than now |
| Scheduling.LaterAppend | src/schedule/scheduleManager.cpp:42-51 | the report keeps the stored order: it is computed entry by entry and never sorted |
| Scheduling.LaterNonEmpty | src/schedule/scheduleManager.cpp:44-49 | an entry later than now is non-empty, so an empty result means no entry was later |
| Scheduling.NoMoreRingsCases | src/schedule/scheduleManager.cpp:38-58 | a missing day and a day with no later entry both give "No more rings today" |
| Scheduling.TimeStringIsGetTime | src/schedule/TimeManager.cpp:29-36 | a well-formed `HH:MM` string whose fields give a valid time is the formatted time |
| Scheduling.RingsAtScheduledMinute | src/schedule/scheduleManager.cpp:83-105 | at a valid time the bell rings exactly when today lists a well-formed `HH:MM` for that hour and minute |
| Scheduling.SavedScheduleReloads | src/schedule/scheduleManager.cpp:130-135 | a saved payload under 1000 characters is parsed to the same schedule at the next boot |
| Scheduling.LongScheduleOverrunsSalt | src/board/EEPROMLayoutManager.cpp:22-34 | a payload of 1000 characters or more reloads cut to 1000 and its tail becomes the salt |
| Scheduling.BlankSlotKeepsSchedule | src/schedule/scheduleManager.cpp:130-135 | booting from erased flash or a wiped slot keeps the schedule it started with |
| Authentication.Random | src/web/AuthManager.cpp:58 | `random(lo, hi)` lies in `[lo, hi)`, or is `lo` when the range is empty |
| Authentication.SaltChar | src/web/AuthManager.cpp:58 | every salt character has a code in 33..125 |
| Authentication.SaltFrom | src/web/AuthManager.cpp:54-62 | the salt has one character per generator value, each that value's salt character |
| Authentication.AuthManager.constructor | src/web/AuthManager.cpp:11-25 | with the flag set, the salt is loaded and the hash left empty; with it unset, a 16-character salt and the hash of "admin" are installed and saved, and the flag is written as false; the sector then holds the buffer as of the last of the three commits that succeeded, or is unchanged if none did |
| Authentication.AuthManager.InstallDefaultSecret | src/web/AuthManager.cpp:17-24 | the bootstrap branch: the salt comes from the generator, the hash is that of "admin" with it, the buffer gains password, salt and a false flag in that order, and the sector follows the last successful commit |
| Authentication.AuthManager.CheckPassword | src/web/AuthManager.cpp:27-29 | true exactly when the salted hash of the candidate equals the stored hash; never true while the stored hash is empty |
| Authentication.AuthManager.UpdatePassword | src/web/AuthManager.cpp:31-36 | a fresh 16-character salt and the new hash replace the old ones and are saved, salt first; the result is only the password save's; the sector holds the full buffer if the password commit succeeded, the buffer with only the new salt if only the salt commit did, and is unchanged otherwise |
| Authentication.AuthManager.GenerateToken | src/web/AuthManager.cpp:38-45 | the token is the hash of the seed text, becomes the only current token, and is stamped with `millis()` |
| Authentication.AuthManager.IsTokenValid | src/web/AuthManager.cpp:98-100 | valid exactly when fewer than 3,600,000 ms have passed since the stamp, counting across one rollover of the 32-bit `millis()` |
| Authentication.AuthManager.CheckToken | src/web/AuthManager.cpp:47-49 | true exactly when the token is the current one and fewer than 3,600,000 ms have passed modulo 2^32 |
| Authentication.AuthManager.GenerateSalt | src/web/AuthManager.cpp:54-62 | exactly `n` characters, each drawn from 33..125 |
| Authentication.AuthManager.HashPasswordWithSalt | src/web/AuthManager.cpp:65-79 | the hex of SHA-256 of salt then password, two lower-case digits per byte |
| Authentication.AuthManager.HashToken | src/web/AuthManager.cpp:82-96 | the hex of SHA-256 of the data, two lower-case digits per byte |
| Authentication.UpdatedPasswordAccepted | src/web/AuthManager.cpp:27-36 | after `updatePassword(p)`, `checkPassword(p)` holds whatever became of the commits |
| Authentication.BootstrapAcceptsAdmin | src/web/AuthManager.cpp:17-24 | after a boot with the flag unset, `checkPassword("admin")` holds |
| Authentication.InitializedBootRejects | src/web/AuthManager.cpp:13-24 | after a boot with the flag set, every password is rejected |
| Authentication.BootstrapFlash | src/web/AuthManager.cpp:21-23 | after three saves, each committed or not, the sector shows the buffer of the last successful one, or is unchanged |
| Authentication.HexStringPair | src/web/AuthManager.cpp:75-76 | `"0"` then `String(b, HEX)` below 16, `String(b, HEX)` from 16 on, and `%02x` all give the same two digits |
| Authentication.HexLength | src/web/AuthManager.cpp:73-78 | a digest of `n` bytes encodes to `2n` characters |
| Authentication.HexRoundTrip | src/web/AuthManager.cpp:73-78 | decoding the hex text gives back the digest bytes |
| Authentication.HexPairRoundTrip | src/web/AuthManager.cpp:75-76 | the two digits written for a byte decode to that byte |
| Authentication.HexValueOfDigit | src/web/AuthManager.cpp:76 | a hex digit character reads back as its value |
| Authentication.PasswordHashLength | src/web/AuthManager.cpp:27-29 | every password hash has 64 characters, so it never equals the empty hash |
| Authentication.ElapsedAcrossRollover | src/web/AuthManager.cpp:98-100 | `n` ms after issue the elapsed time is `n`, also across a rollover of `millis()` |
| Authentication.TokenValidForOneHour | src/web/AuthManager.h:25 | the current token is accepted for exactly the first 3,600,000 ms after issue |
| Authentication.OnlyCurrentTokenAccepted | src/web/AuthManager.cpp:47-49 | any token other than the current one is rejected |
| Authentication.EmptyTokenAcceptedInFirstHour | src/web/AuthManager.cpp:98-100 | before any token is issued, "" is accepted exactly while `millis()` is below one hour |
| Authentication.SaltIsStorable | src/web/AuthManager.cpp:54-62 | salt characters fit a byte and none is NUL, so the salt slot holds them exactly |
| Authentication.BootstrapRepeats | src/web/AuthManager.cpp:21-23 | after the bootstrap's saves the flag reads as unset, so the next boot bootstraps again, and the saved salt loads back |

## Left out

- ArduinoJson is not modelled: parsing is the uninterpreted `parse`. The
  JSON views `getScheduleString` and `getScheduleJson` are left out.
- SHA-256 (BearSSL) is not modelled: it is the uninterpreted `sha256`.
- The random generator, `micros()` and `millis()` are inputs, as are the
  clock's day, hour and minute and the date-time string. ezTime, NTP
  synchronisation and `getDateTime` are not part of this model.
- Serial logging is left out; it has no effect on state.
- The relay's GPIO and its blocking `delay` are not modelled. Each
  activation is one increment of `rings`.
- A failed `EEPROM.commit()` is modelled as leaving the sector unchanged.
  A commit interrupted after the erase could leave it erased, and the model
  does not cover that.
- `EEPROM.begin` rounds the size up to a multiple of 4 in the driver; the
  model maps exactly the requested size.
- Eeprom.EepromLayoutManager.LoadInt: requires the four bytes to lie inside
  the buffer. Outside it, `EEPROM.get` leaves the local `int` uninitialised,
  which is undefined behaviour.
- Authentication.AuthManager.constructor: requires the EEPROM to have been
  begun with room for the flag slot. In the firmware the global objects are
  constructed in an order the language does not fix, and the model does
  not capture that order.
- The token timestamp starts at 0 because the global `authManager` is
  zero-initialised; the constructor sets it explicitly.
- The HTTP endpoints and page serving are not part of this model, and
  neither is the token check they perform before a mutation. The same goes
  for WiFi provisioning and the web UI scripts.
- The superseded root-level copies of the EEPROM manager, schedule manager,
  time manager and main program are not part of this model.
- The functions declared but never defined (`validateSchedule`,
  `isValidTimeFormat`, `sortScheduleTimes`, `getRemainingRingTimes`,
  `AuthManager::initialize`, the EEPROM manager's session-token functions)
  are not modelled, and no validation, sorting or de-duplication is
  attributed to the code.
- `updateSchedule` is declared to return `bool` but defined to return
  nothing; the model follows the definition.
- The code raises no warning while the default credential is active, and
  none is modelled.
