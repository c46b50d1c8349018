/**
 * The persistence layer: a flat, byte-addressed EEPROM (emulated in one flash
 * sector) with strings and ints kept at fixed slot addresses, and typed
 * loaders that fall back to defaults when a slot reads as erased flash.
 */
module Eeprom {
  import opened ArduinoString

  /** Size of the flash sector that backs the emulated EEPROM. */
  const SECTOR_SIZE: nat := 4096

  /** Slot addresses. */
  const RING_DURATION_ADDR: nat := 100
  const DEVICE_NAME_ADDR: nat := 200
  const UNIQUE_URL_ADDR: nat := 300
  const PASSWORD_ADDR: nat := 400
  const SCHEDULE_ADDR: nat := 600
  /** The salt and initialized-flag slots lie past the 1000-byte schedule slot. */
  const SALT_ADDR: nat := 1600
  const INITIALIZED_ADDR: nat := 1700

  /** The longest string each string loader reads. */
  const FIELD_MAX_LEN: nat := 100
  const SCHEDULE_MAX_LEN: nat := 1000

  /** Never-written flash reads as all bits set. */
  const ERASED_BYTE: byte := 0xFF
  const ERASED_CHAR: char := 255 as char

  const DEFAULT_NAME: string := "bellsystem"
  const DEFAULT_PASSWORD: string := "password"
  const DEFAULT_RING_DURATION: int := 2

  /** `EEPROM.read`: a byte of the buffer, or 0 outside it. */
  function ByteAt(m: seq<byte>, addr: int): byte
  {
    if 0 <= addr < |m| then m[addr] else 0
  }

  /**
   * The buffer after `saveString(s, a)`: the bytes of `s` at `a`, `a + 1`, ...
   * and a NUL after them; writes that fall outside the buffer are dropped.
   */
  function Stored(m: seq<byte>, s: string, a: int): (r: seq<byte>)
    ensures |r| == |m|
  {
    seq(|m|, k requires 0 <= k < |m| => StoredByte(m, s, a, k))
  }

  /** Byte `k` of the buffer after `saveString(a, s)`: the string, its NUL terminator, or what was there. */
  function StoredByte(m: seq<byte>, s: string, a: int, k: int): byte
    requires 0 <= k < |m|
  {
    if a <= k < a + |s| then ByteOf(s[k - a])
    else if k == a + |s| then 0
    else m[k]
  }

  /** What `loadString(a, n)` returns: the characters from `a` up to the first NUL, at most `n` of them. */
  function LoadedString(m: seq<byte>, a: int, n: int): (r: string)
    ensures |r| <= (if n < 0 then 0 else n)
    ensures NulFree(r)
    decreases if n < 0 then 0 else n
  {
    if n <= 0 || ByteAt(m, a) == 0 then ""
    else
      var rest := LoadedString(m, a + 1, n - 1);
      assert CharOf(ByteAt(m, a)) != NUL;
      [CharOf(ByteAt(m, a))] + rest
  }

  /** A loaded string, or `default` when its first character is the erased byte. */
  function OrDefault(loaded: string, default: string): string
  {
    if |loaded| > 0 && loaded[0] == ERASED_CHAR then default else loaded
  }

  /** The four bytes `EEPROM.put` copies for an int: two's complement, little-endian. */
  function IntBytes(v: int32): (b: seq<byte>)
    ensures |b| == 4
  {
    var u := v % 0x1_0000_0000;
    var q1 := u / 0x100;
    var q2 := q1 / 0x100;
    [LowByte(u), LowByte(q1), LowByte(q2), LowByte(q2 / 0x100)]
  }

  /** The low eight bits of a non-negative value. */
  function LowByte(x: nat): (b: byte)
    ensures b as int == x % 0x100
  {
    (x % 0x100) as byte
  }

  /** The int `EEPROM.get` reassembles from four bytes. */
  function IntOfBytes(b: seq<byte>): int32
    requires |b| == 4
  {
    var u := Unsigned(b);
    if u < 0x8000_0000 then u else u - 0x1_0000_0000
  }

  /** Four little-endian bytes read as an unsigned value. */
  function Unsigned(b: seq<byte>): (u: nat)
    requires |b| == 4
    ensures u < 0x1_0000_0000
  {
    (b[0] as int) + 0x100 * (b[1] as int) + 0x1_0000 * (b[2] as int) + 0x100_0000 * (b[3] as int)
  }

  /** The buffer after `EEPROM.put(a, v)`, which does nothing when the int does not fit. */
  function PutInt(m: seq<byte>, v: int32, a: int): (r: seq<byte>)
    ensures |r| == |m|
  {
    if 0 <= a && a + 4 <= |m| then m[..a] + IntBytes(v) + m[a + 4..] else m
  }

  function IntAt(m: seq<byte>, a: int): int32
    requires 0 <= a && a + 4 <= |m|
  {
    IntOfBytes(m[a..a + 4])
  }

  /**
   * The flash sector after a successful commit of buffer `m`: the driver
   * erases the whole sector and writes back only the buffer, so what lies
   * past it reads as erased flash.
   */
  function Flushed(flash: seq<byte>, m: seq<byte>): (r: seq<byte>)
    requires |m| <= |flash|
    ensures |r| == |flash| && r[..|m|] == m
    ensures forall k :: |m| <= k < |flash| ==> r[k] == ERASED_BYTE
  {
    m + seq(|flash| - |m|, _ => ERASED_BYTE)
  }

  /** The ring duration `loadRingDuration` makes of the stored int. */
  function RingDuration(stored: int32): (d: int)
    ensures 1 <= d <= 10
    ensures 1 <= stored <= 10 ==> d == stored
    ensures stored < 1 || stored > 10 ==> d == DEFAULT_RING_DURATION
  {
    if stored == 0 then DEFAULT_RING_DURATION
    else if stored > 10 || stored < 0 then DEFAULT_RING_DURATION
    else stored
  }

  /** The flag `loadInitialized` makes of the stored int. */
  function InitializedFlag(stored: int32): (b: bool)
    ensures b <==> stored == 1
  {
    if stored <= 0 || stored > 1 then false else true
  }

  /** The value each typed loader returns for buffer contents `m`. */
  function RingScheduleOf(m: seq<byte>): string
  {
    OrDefault(LoadedString(m, SCHEDULE_ADDR, SCHEDULE_MAX_LEN), "")
  }

  function DeviceNameOf(m: seq<byte>): string
  {
    OrDefault(LoadedString(m, DEVICE_NAME_ADDR, FIELD_MAX_LEN), DEFAULT_NAME)
  }

  function UniqueUrlOf(m: seq<byte>): string
  {
    OrDefault(LoadedString(m, UNIQUE_URL_ADDR, FIELD_MAX_LEN), DEFAULT_NAME)
  }

  function PasswordOf(m: seq<byte>): string
  {
    OrDefault(LoadedString(m, PASSWORD_ADDR, FIELD_MAX_LEN), DEFAULT_PASSWORD)
  }

  function SaltOf(m: seq<byte>): string
  {
    LoadedString(m, SALT_ADDR, FIELD_MAX_LEN)
  }

  function RingDurationOf(m: seq<byte>): int
    requires RING_DURATION_ADDR + 4 <= |m|
  {
    RingDuration(IntAt(m, RING_DURATION_ADDR))
  }

  function InitializedOf(m: seq<byte>): bool
    requires INITIALIZED_ADDR + 4 <= |m|
  {
    InitializedFlag(IntAt(m, INITIALIZED_ADDR))
  }

  /**
   * The layout manager over the EEPROM driver. `mem` is the driver's RAM copy
   * (empty until `Begin`), `flash` the sector that keeps it across power
   * cycles; `Commit` copies the former into the latter.
   */
  class EepromLayoutManager {
    var mem: array<byte>
    var flash: seq<byte>

    ghost predicate Valid()
      reads this
    {
      |flash| == SECTOR_SIZE && mem.Length <= SECTOR_SIZE
    }

    /** The global object at power-on: `sector` is what the flash holds. */
    constructor (sector: seq<byte>)
      requires |sector| == SECTOR_SIZE
      ensures Valid() && flash == sector && mem.Length == 0
    {
      flash := sector;
      mem := new byte[0];
    }

    /**
     * `begin(size)`: the driver copies the first `size` bytes of the sector
     * (at most the whole sector) into a fresh buffer; a size of 0 is ignored.
     */
    method Begin(size: nat) returns (ok: bool)
      requires Valid()
      modifies this`mem
      ensures Valid() && ok
      ensures size == 0 ==> mem == old(mem)
      ensures size > 0 ==> fresh(mem) && mem[..] == flash[..if size < SECTOR_SIZE then size else SECTOR_SIZE]
    {
      if size > 0 {
        var n := if size < SECTOR_SIZE then size else SECTOR_SIZE;
        var image := flash[..n];
        mem := new byte[n](k requires 0 <= k < n => image[k]);
        assert mem[..] == image;
      }
      ok := true;
    }

    /** `EEPROM.write`: ignored outside the buffer. */
    method Write(addr: int, b: byte)
      modifies mem
      ensures mem[..] == if 0 <= addr < mem.Length then old(mem[..])[addr := b] else old(mem[..])
    {
      if 0 <= addr < mem.Length {
        mem[addr] := b;
      }
    }

    /** `EEPROM.commit`: `committed` is the driver's verdict; on success the sector holds the buffer. */
    method Commit(committed: bool) returns (ok: bool)
      requires Valid()
      modifies this`flash
      ensures Valid()
      ensures ok == committed
      ensures flash == if ok then Flushed(old(flash), mem[..]) else old(flash)
    {
      if committed {
        flash := Flushed(flash, mem[..]);
      }
      ok := committed;
    }

    /** `saveString`: the bytes of `data`, then a NUL, from `addr` on; the result is the commit's. */
    method SaveString(data: string, addr: nat, committed: bool) returns (ok: bool)
      requires Valid()
      modifies mem, this`flash
      ensures Valid()
      ensures mem[..] == Stored(old(mem[..]), data, addr)
      ensures forall k :: 0 <= k < mem.Length && !(addr <= k <= addr + |data|) ==> mem[k] == old(mem[k])
      ensures ok == committed
      ensures flash == if ok then Flushed(old(flash), mem[..]) else old(flash)
    {
      var i := 0;
      while i < |data|
        invariant 0 <= i <= |data|
        invariant flash == old(flash)
        invariant forall k :: 0 <= k < mem.Length ==>
          mem[k] == if addr <= k < addr + i then ByteOf(data[k - addr]) else old(mem[k])
      {
        Write(addr + i, ByteOf(data[i]));
        i := i + 1;
      }
      Write(addr + i, 0);
      assert mem[..] == Stored(old(mem[..]), data, addr);
      ok := Commit(committed);
    }

    /** `loadString`: reads from `addr` until a NUL or `maxLen` characters. */
    method LoadString(addr: nat, maxLen: int) returns (r: string)
      ensures r == LoadedString(mem[..], addr, maxLen)
    {
      r := "";
      var i := 0;
      while i < maxLen
        invariant 0 <= i
        invariant i <= maxLen || i == 0
        invariant r + LoadedString(mem[..], addr + i, maxLen - i) == LoadedString(mem[..], addr, maxLen)
      {
        var ch := ByteAt(mem[..], addr + i);
        if ch == 0 {
          break;
        }
        r := r + [CharOf(ch)];
        i := i + 1;
      }
    }

    /** `saveInt`: `EEPROM.put` of the four bytes, then the commit. */
    method SaveInt(value: int32, addr: nat, committed: bool) returns (ok: bool)
      requires Valid()
      modifies mem, this`flash
      ensures Valid()
      ensures mem[..] == PutInt(old(mem[..]), value, addr)
      ensures ok == committed
      ensures flash == if ok then Flushed(old(flash), mem[..]) else old(flash)
    {
      if addr + 4 <= mem.Length {
        var b := IntBytes(value);
        mem[addr], mem[addr + 1], mem[addr + 2], mem[addr + 3] := b[0], b[1], b[2], b[3];
        assert mem[..] == old(mem[..])[..addr] + b + old(mem[..])[addr + 4..];
      }
      ok := Commit(committed);
    }

    /** `loadInt`: `EEPROM.get` of four bytes (out of range the C++ reads an uninitialised int). */
    method LoadInt(addr: nat) returns (value: int32)
      requires addr + 4 <= mem.Length
      ensures value == IntAt(mem[..], addr)
    {
      value := IntOfBytes(mem[addr..addr + 4]);
    }

    method SaveRingSchedule(schedule: string, committed: bool) returns (ok: bool)
      requires Valid()
      modifies mem, this`flash
      ensures Valid()
      ensures mem[..] == Stored(old(mem[..]), schedule, SCHEDULE_ADDR)
      ensures ok == committed
      ensures flash == if ok then Flushed(old(flash), mem[..]) else old(flash)
    {
      ok := SaveString(schedule, SCHEDULE_ADDR, committed);
    }

    /** `wipeSavedSchedule`: saves the empty string, that is a single NUL, in the schedule slot. */
    method WipeSavedSchedule(committed: bool) returns (ok: bool)
      requires Valid()
      modifies mem, this`flash
      ensures Valid()
      ensures mem[..] == Stored(old(mem[..]), "", SCHEDULE_ADDR)
      ensures SCHEDULE_ADDR >= mem.Length || mem[..] == old(mem[..])[SCHEDULE_ADDR := 0]
      ensures RingScheduleOf(mem[..]) == ""
      ensures ok == committed
      ensures flash == if ok then Flushed(old(flash), mem[..]) else old(flash)
    {
      ok := SaveString("", SCHEDULE_ADDR, committed);
      WipedScheduleLoadsEmpty(old(mem[..]));
    }

    /** `loadRingSchedule`: up to 1000 characters, "" when the slot reads as erased. */
    method LoadRingSchedule() returns (r: string)
      ensures r == RingScheduleOf(mem[..])
      ensures |r| <= SCHEDULE_MAX_LEN && (|r| == 0 || r[0] != ERASED_CHAR)
    {
      var s := LoadString(SCHEDULE_ADDR, SCHEDULE_MAX_LEN);
      if |s| > 0 && s[0] == ERASED_CHAR {
        r := "";
      } else {
        r := s;
      }
    }

    method SaveRingDuration(duration: int32, committed: bool) returns (ok: bool)
      requires Valid()
      modifies mem, this`flash
      ensures Valid()
      ensures mem[..] == PutInt(old(mem[..]), duration, RING_DURATION_ADDR)
      ensures ok == committed
      ensures flash == if ok then Flushed(old(flash), mem[..]) else old(flash)
    {
      ok := SaveInt(duration, RING_DURATION_ADDR, committed);
    }

    /** `loadRingDuration`: the stored int when it lies in 1..10, else the default 2. */
    method LoadRingDuration() returns (d: int)
      requires RING_DURATION_ADDR + 4 <= mem.Length
      ensures d == RingDurationOf(mem[..])
      ensures 1 <= d <= 10
    {
      var duration := LoadInt(RING_DURATION_ADDR);
      if duration == 0 {
        d := DEFAULT_RING_DURATION;
      } else if duration > 10 || duration < 0 {
        d := DEFAULT_RING_DURATION;
      } else {
        d := duration;
      }
    }

    method SaveDeviceName(deviceName: string, committed: bool) returns (ok: bool)
      requires Valid()
      modifies mem, this`flash
      ensures Valid()
      ensures mem[..] == Stored(old(mem[..]), deviceName, DEVICE_NAME_ADDR)
      ensures ok == committed
      ensures flash == if ok then Flushed(old(flash), mem[..]) else old(flash)
    {
      ok := SaveString(deviceName, DEVICE_NAME_ADDR, committed);
    }

    /** `loadDeviceName`: up to 100 characters, "bellsystem" when the slot reads as erased. */
    method LoadDeviceName() returns (r: string)
      ensures r == DeviceNameOf(mem[..])
    {
      var s := LoadString(DEVICE_NAME_ADDR, FIELD_MAX_LEN);
      if |s| > 0 && s[0] == ERASED_CHAR {
        r := DEFAULT_NAME;
      } else {
        r := s;
      }
    }

    /** `loadUniqueURL`: up to 100 characters, "bellsystem" when the slot reads as erased. */
    method LoadUniqueUrl() returns (r: string)
      ensures r == UniqueUrlOf(mem[..])
    {
      var s := LoadString(UNIQUE_URL_ADDR, FIELD_MAX_LEN);
      if |s| > 0 && s[0] == ERASED_CHAR {
        r := DEFAULT_NAME;
      } else {
        r := s;
      }
    }

    method SaveUniqueUrl(url: string, committed: bool) returns (ok: bool)
      requires Valid()
      modifies mem, this`flash
      ensures Valid()
      ensures mem[..] == Stored(old(mem[..]), url, UNIQUE_URL_ADDR)
      ensures ok == committed
      ensures flash == if ok then Flushed(old(flash), mem[..]) else old(flash)
    {
      ok := SaveString(url, UNIQUE_URL_ADDR, committed);
    }

    method SavePassword(password: string, committed: bool) returns (ok: bool)
      requires Valid()
      modifies mem, this`flash
      ensures Valid()
      ensures mem[..] == Stored(old(mem[..]), password, PASSWORD_ADDR)
      ensures ok == committed
      ensures flash == if ok then Flushed(old(flash), mem[..]) else old(flash)
    {
      ok := SaveString(password, PASSWORD_ADDR, committed);
    }

    /** `loadPassword`: up to 100 characters, "password" when the slot reads as erased. */
    method LoadPassword() returns (r: string)
      ensures r == PasswordOf(mem[..])
    {
      var s := LoadString(PASSWORD_ADDR, FIELD_MAX_LEN);
      if |s| > 0 && s[0] == ERASED_CHAR {
        r := DEFAULT_PASSWORD;
      } else {
        r := s;
      }
    }

    method SaveSalt(salt: string, committed: bool) returns (ok: bool)
      requires Valid()
      modifies mem, this`flash
      ensures Valid()
      ensures mem[..] == Stored(old(mem[..]), salt, SALT_ADDR)
      ensures ok == committed
      ensures flash == if ok then Flushed(old(flash), mem[..]) else old(flash)
    {
      ok := SaveString(salt, SALT_ADDR, committed);
    }

    /** `loadSalt`: up to 100 characters, with no default. */
    method LoadSalt() returns (r: string)
      ensures r == SaltOf(mem[..])
      ensures |r| <= FIELD_MAX_LEN
    {
      r := LoadString(SALT_ADDR, FIELD_MAX_LEN);
    }

    /** `saveInitialized`: the flag as the int 1 or 0. */
    method SaveInitialized(initialized: bool, committed: bool) returns (ok: bool)
      requires Valid()
      modifies mem, this`flash
      ensures Valid()
      ensures mem[..] == PutInt(old(mem[..]), if initialized then 1 else 0, INITIALIZED_ADDR)
      ensures INITIALIZED_ADDR + 4 <= mem.Length ==> InitializedOf(mem[..]) == initialized
      ensures ok == committed
      ensures flash == if ok then Flushed(old(flash), mem[..]) else old(flash)
    {
      ok := SaveInt(if initialized then 1 else 0, INITIALIZED_ADDR, committed);
      if INITIALIZED_ADDR + 4 <= mem.Length {
        IntRoundTrip(old(mem[..]), if initialized then 1 else 0, INITIALIZED_ADDR);
      }
    }

    /** `loadInitialized`: true exactly when the stored int is 1. */
    method LoadInitialized() returns (b: bool)
      requires INITIALIZED_ADDR + 4 <= mem.Length
      ensures b == InitializedOf(mem[..])
      ensures b <==> IntAt(mem[..], INITIALIZED_ADDR) == 1
    {
      var initialized := LoadInt(INITIALIZED_ADDR);
      if initialized <= 0 || initialized > 1 {
        b := false;
      } else {
        b := true;
      }
    }
  }

  /** A later successful commit replaces whatever an earlier one left in the sector. */
  lemma FlushedOverwrites(flash: seq<byte>, m1: seq<byte>, m2: seq<byte>)
    requires |m1| == |m2| <= |flash|
    ensures Flushed(Flushed(flash, m1), m2) == Flushed(flash, m2)
  {
  }

  /** `loadString` reads nothing at or beyond `a + n`: buffers that agree on `[a, a + n)` load the same string. */
  lemma {:induction false} LoadedStringWindow(m1: seq<byte>, m2: seq<byte>, a: int, n: int)
    requires forall k :: a <= k < a + n ==> ByteAt(m1, k) == ByteAt(m2, k)
    ensures LoadedString(m1, a, n) == LoadedString(m2, a, n)
    decreases if n < 0 then 0 else n
  {
    if n > 0 {
      assert ByteAt(m1, a) == ByteAt(m2, a);
      LoadedStringWindow(m1, m2, a + 1, n - 1);
    }
  }

  /** Writing an int leaves every string that ends before its four bytes loading as before. */
  lemma PutIntLeavesStringsBelow(m: seq<byte>, v: int32, a: nat, b: int, n: int)
    requires a + 4 <= |m| && b + n <= a
    ensures LoadedString(PutInt(m, v, a), b, n) == LoadedString(m, b, n)
  {
    var m' := PutInt(m, v, a);
    forall k | b <= k < b + n
      ensures ByteAt(m', k) == ByteAt(m, k)
    {
      if 0 <= k < |m| {
        assert m'[k] == m[..a][k];
      }
    }
    LoadedStringWindow(m', m, b, n);
  }

  function Min(x: int, y: int): int
  {
    if x <= y then x else y
  }

  /**
   * Loading at `a + k` after storing `s` at `a` gives the characters of `s`
   * from index `k`, capped at `n`, provided the whole write fits in the buffer.
   */
  lemma {:induction false} LoadAfterStore(m: seq<byte>, s: string, a: int, k: int, n: int)
    requires 0 <= a && a + |s| < |m|
    requires 0 <= k <= |s| && 0 <= n
    requires IsByteString(s) && NulFree(s)
    ensures LoadedString(Stored(m, s, a), a + k, n) == s[k..][..Min(n, |s| - k)]
    decreases n
  {
    var m' := Stored(m, s, a);
    if n == 0 {
    } else if k == |s| {
      assert ByteAt(m', a + k) == 0;
    } else {
      CharOfByteOf(s[k]);
      assert ByteAt(m', a + k) == ByteOf(s[k]) != 0;
      LoadAfterStore(m, s, a, k + 1, n - 1);
      assert s[k..][..Min(n, |s| - k)] == [s[k]] + s[k + 1..][..Min(n - 1, |s| - (k + 1))];
    }
  }

  /**
   * The round trip of `saveString` and `loadString`: a NUL-free string shorter
   * than `n` comes back whole, a longer one as its first `n` characters.
   */
  lemma StringRoundTrip(m: seq<byte>, s: string, a: nat, n: nat)
    requires a + |s| < |m|
    requires IsByteString(s) && NulFree(s)
    ensures |s| < n ==> LoadedString(Stored(m, s, a), a, n) == s
    ensures |s| >= n ==> LoadedString(Stored(m, s, a), a, n) == s[..n]
  {
    LoadAfterStore(m, s, a, 0, n);
    assert s[0..] == s;
  }

  /** Storing a string leaves every string that ends before it, or starts after its NUL, loading as before. */
  lemma StoreLeavesOtherSlots(m: seq<byte>, s: string, a: int, b: int, n: int)
    requires b + n <= a || a + |s| < b
    ensures LoadedString(Stored(m, s, a), b, n) == LoadedString(m, b, n)
  {
    forall k | b <= k < b + n
      ensures ByteAt(Stored(m, s, a), k) == ByteAt(m, k)
    {
    }
    LoadedStringWindow(Stored(m, s, a), m, b, n);
  }

  /**
   * `saveString` has no length limit: a device name of 100 or more characters
   * runs into the unique-URL slot at 300, which then loads the name's tail.
   */
  lemma LongDeviceNameOverwritesUrl(m: seq<byte>, name: string)
    requires |name| >= UNIQUE_URL_ADDR - DEVICE_NAME_ADDR
    requires DEVICE_NAME_ADDR + |name| < |m|
    requires IsByteString(name) && NulFree(name)
    ensures LoadedString(Stored(m, name, DEVICE_NAME_ADDR), UNIQUE_URL_ADDR, FIELD_MAX_LEN)
         == name[100..][..Min(FIELD_MAX_LEN, |name| - 100)]
  {
    LoadAfterStore(m, name, DEVICE_NAME_ADDR, 100, FIELD_MAX_LEN);
  }

  /**
   * A string slot with a default loads back what was saved, unless it is as
   * long as the slot's read limit (then it is cut) or starts with the erased
   * byte (then the default comes back).
   */
  lemma SlotRoundTrip(m: seq<byte>, s: string, a: nat, n: nat, default: string)
    requires a + |s| < |m| && |s| < n
    requires IsByteString(s) && NulFree(s)
    ensures OrDefault(LoadedString(Stored(m, s, a), a, n), default)
         == if |s| > 0 && s[0] == ERASED_CHAR then default else s
  {
    StringRoundTrip(m, s, a, n);
  }

  /** After `wipeSavedSchedule`, `loadRingSchedule` returns "". */
  lemma WipedScheduleLoadsEmpty(m: seq<byte>)
    ensures RingScheduleOf(Stored(m, "", SCHEDULE_ADDR)) == ""
  {
    var m' := Stored(m, "", SCHEDULE_ADDR);
    assert ByteAt(m', SCHEDULE_ADDR) == 0;
  }

  /** `loadInt` at `a` after `saveInt(v, a)` returns `v`. */
  lemma IntRoundTrip(m: seq<byte>, v: int32, a: nat)
    requires a + 4 <= |m|
    ensures IntAt(PutInt(m, v, a), a) == v
  {
    var m' := PutInt(m, v, a);
    assert m'[a..a + 4] == IntBytes(v);
    IntBytesRoundTrip(v);
  }

  lemma IntBytesRoundTrip(v: int32)
    ensures IntOfBytes(IntBytes(v)) == v
  {
    UnsignedOfIntBytes(v);
    var u := v % 0x1_0000_0000;
    assert v >= 0 ==> u == v;
    assert v < 0 ==> u == v + 0x1_0000_0000;
  }

  lemma UnsignedOfIntBytes(v: int32)
    ensures Unsigned(IntBytes(v)) == v % 0x1_0000_0000
  {
    var u := v % 0x1_0000_0000;
    var q1 := u / 0x100;
    var q2 := q1 / 0x100;
    BaseDigits(u);
    var b := IntBytes(v);
    assert b[0] as int == u % 0x100 && b[1] as int == q1 % 0x100 && b[2] as int == q2 % 0x100 && b[3] as int == q2 / 0x100;
  }

  lemma BaseDigits(u: int)
    requires 0 <= u < 0x1_0000_0000
    ensures var q1 := u / 0x100; var q2 := q1 / 0x100;
      && u == u % 0x100 + 0x100 * (q1 % 0x100) + 0x1_0000 * (q2 % 0x100) + 0x100_0000 * (q2 / 0x100)
      && q2 / 0x100 < 0x100
  {
    var q1 := u / 0x100;
    var q2 := q1 / 0x100;
    assert u == u % 0x100 + 0x100 * q1;
    assert q1 == q1 % 0x100 + 0x100 * q2;
    assert q2 == q2 % 0x100 + 0x100 * (q2 / 0x100);
  }

  /** Every byte of the buffer is the erased value. */
  predicate AllErased(m: seq<byte>)
  {
    forall k :: 0 <= k < |m| ==> m[k] == ERASED_BYTE
  }

  /**
   * A buffer of never-written flash loads as the documented defaults: no
   * schedule, the default name and URL, the default password, ring duration 2
   * and the initialized flag unset.
   */
  lemma ErasedStoreDefaults(m: seq<byte>)
    requires AllErased(m) && INITIALIZED_ADDR + 4 <= |m|
    ensures RingScheduleOf(m) == ""
    ensures DeviceNameOf(m) == DEFAULT_NAME && UniqueUrlOf(m) == DEFAULT_NAME
    ensures PasswordOf(m) == DEFAULT_PASSWORD
    ensures RingDurationOf(m) == DEFAULT_RING_DURATION
    ensures !InitializedOf(m)
  {
    ErasedSlotLoadsErasedChar(m, SCHEDULE_ADDR, SCHEDULE_MAX_LEN);
    ErasedSlotLoadsErasedChar(m, DEVICE_NAME_ADDR, FIELD_MAX_LEN);
    ErasedSlotLoadsErasedChar(m, UNIQUE_URL_ADDR, FIELD_MAX_LEN);
    ErasedSlotLoadsErasedChar(m, PASSWORD_ADDR, FIELD_MAX_LEN);
    assert m[RING_DURATION_ADDR..RING_DURATION_ADDR + 4] == [0xFF, 0xFF, 0xFF, 0xFF];
    assert m[INITIALIZED_ADDR..INITIALIZED_ADDR + 4] == [0xFF, 0xFF, 0xFF, 0xFF];
  }

  lemma ErasedSlotLoadsErasedChar(m: seq<byte>, a: nat, n: nat)
    requires AllErased(m) && a < |m| && n > 0
    ensures |LoadedString(m, a, n)| > 0 && LoadedString(m, a, n)[0] == ERASED_CHAR
  {
    assert ByteAt(m, a) == ERASED_BYTE;
  }
}
