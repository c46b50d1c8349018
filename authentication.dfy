/**
 * The credential and session layer: a salted SHA-256 password hash kept in
 * the EEPROM, and a single bearer token with the time it was issued.
 *
 * SHA-256 is the uninterpreted deterministic function `sha256`; the values
 * of `random()`, `micros()` and `millis()` are inputs of the methods that
 * read them.
 */
module Authentication {
  import opened ArduinoString
  import opened Eeprom

  /** A token stays valid for one hour, in milliseconds. */
  const TOKEN_VALIDITY_MS: nat := 3600000
  const SALT_LENGTH: nat := 16
  /** The secret installed when the initialized flag is unset. */
  const DEFAULT_SECRET: string := "admin"
  const INT32_MAX: nat := 0x7FFF_FFFF

  type Digest = d: seq<byte> | |d| == 32 witness seq(32, i => 0 as byte)

  /**
   * Arduino's `random(lo, hi)` for a raw generator value `raw`: `lo` when the
   * range is empty, else `lo + raw % (hi - lo)`; the upper bound is exclusive.
   */
  function Random(lo: int, hi: int, raw: nat): (r: int)
    ensures lo < hi ==> lo <= r < hi
    ensures lo >= hi ==> r == lo
  {
    if lo >= hi then lo else lo + raw % (hi - lo)
  }

  /** One salt character: `random(33, 126)`, a printable character from '!' to '}'. */
  function SaltChar(raw: nat): (c: char)
    ensures 33 <= c as int <= 125
  {
    Random(33, 126, raw) as char
  }

  /** The salt `generateSalt` draws from the raw generator values `raw`, one character each. */
  function SaltFrom(raw: seq<nat>): (salt: string)
    ensures |salt| == |raw|
    ensures forall i :: 0 <= i < |raw| ==> salt[i] == SaltChar(raw[i])
  {
    seq(|raw|, i requires 0 <= i < |raw| => SaltChar(raw[i]))
  }

  /** Two lower-case hex digits for a byte. */
  function HexPair(b: byte): string
  {
    [HexDigit(b as int / 16), HexDigit(b as int % 16)]
  }

  /** A digest written as hex, two characters per byte. */
  function Hex(d: seq<byte>): (r: string)
    decreases |d|
  {
    if d == [] then "" else Hex(d[..|d| - 1]) + HexPair(d[|d| - 1])
  }

  function HexValue(c: char): nat
  {
    if '0' <= c <= '9' then c as nat - '0' as nat
    else if 'a' <= c <= 'f' then c as nat - 'a' as nat + 10
    else 0
  }

  /** Reads hex text back into bytes, two characters per byte. */
  function Unhex(s: string): (d: seq<byte>)
    decreases |s|
  {
    if |s| < 2 then []
    else Unhex(s[..|s| - 2]) + [LowByte(HexValue(s[|s| - 2]) * 16 + HexValue(s[|s| - 1]))]
  }

  /** `sprintf("%02x", b)`: the hex digits of `b`, zero-padded to two. */
  function Format02x(n: nat): string
  {
    var h := HexString(n);
    if |h| < 2 then "0" + h else h
  }

  /** The stored form of a password: the hex SHA-256 of the salt followed by the password. */
  function PasswordHash(sha256: seq<byte> -> Digest, password: string, salt: string): string
  {
    Hex(sha256(Bytes(salt + password)))
  }

  /** A token: the hex SHA-256 of its seed text. */
  function TokenHash(sha256: seq<byte> -> Digest, data: string): string
  {
    Hex(sha256(Bytes(data)))
  }

  /** The seed text of a token: `micros()` and `random(0, INT32_MAX)` in decimal, then the salt. */
  function TokenData(micros: uint32, raw: nat, salt: string): string
  {
    Decimal(micros) + Decimal(Random(0, INT32_MAX, raw)) + salt
  }

  /** `millis() - _tokenTimestamp` in 32-bit unsigned arithmetic. */
  function Elapsed(since: uint32, now: uint32): uint32
  {
    (now - since) % 0x1_0000_0000
  }

  /** The buffer after the bootstrap's three saves: hash, salt, then the flag written as `false`. */
  function Bootstrapped(m: seq<byte>, salt: string, hash: string): seq<byte>
  {
    PutInt(Stored(Stored(m, hash, PASSWORD_ADDR), salt, SALT_ADDR), 0, INITIALIZED_ADDR)
  }

  class AuthManager {
    var encryptedPassword: string
    var currentToken: string
    var salt: string
    var initialized: bool
    var tokenTimestamp: uint32
    const store: EepromLayoutManager
    const sha256: seq<byte> -> Digest

    /**
     * Loads salt, flag and password (the password is not used). With the flag
     * unset, installs the hash of "admin" under a fresh 16-character salt,
     * saves hash and salt, and writes the flag as `false`. The token starts
     * empty and its timestamp at 0, as in a zero-initialised global object.
     */
    constructor (store: EepromLayoutManager, sha256: seq<byte> -> Digest, raw: seq<nat>,
                 passwordCommitted: bool, saltCommitted: bool, flagCommitted: bool)
      requires store.Valid() && INITIALIZED_ADDR + 4 <= store.mem.Length
      requires |raw| >= SALT_LENGTH
      modifies store.mem, store`flash
      ensures this.store == store && this.sha256 == sha256 && store.Valid()
      ensures currentToken == "" && tokenTimestamp == 0
      ensures initialized == old(InitializedOf(store.mem[..]))
      ensures initialized ==> salt == old(SaltOf(store.mem[..])) && encryptedPassword == ""
      ensures initialized ==> store.mem[..] == old(store.mem[..]) && store.flash == old(store.flash)
      ensures !initialized ==> salt == SaltFrom(raw[..SALT_LENGTH])
      ensures !initialized ==> encryptedPassword == PasswordHash(sha256, DEFAULT_SECRET, salt)
      ensures !initialized ==> store.mem[..] == Bootstrapped(old(store.mem[..]), salt, encryptedPassword)
      ensures !initialized ==> (store.flash ==
        if flagCommitted then Flushed(old(store.flash), store.mem[..])
        else if saltCommitted then
          Flushed(old(store.flash), Stored(Stored(old(store.mem[..]), encryptedPassword, PASSWORD_ADDR), salt, SALT_ADDR))
        else if passwordCommitted then Flushed(old(store.flash), Stored(old(store.mem[..]), encryptedPassword, PASSWORD_ADDR))
        else old(store.flash))
    {
      this.store := store;
      this.sha256 := sha256;
      new;
      var loadedSalt := store.LoadSalt();
      var flag := store.LoadInitialized();
      var password := store.LoadPassword();
      var hash := "";
      if !flag {
        loadedSalt, hash := InstallDefaultSecret(raw, passwordCommitted, saltCommitted, flagCommitted);
      }
      salt, initialized, encryptedPassword := loadedSalt, flag, hash;
      currentToken, tokenTimestamp := "", 0;
    }

    /**
     * The bootstrap branch of the constructor: a fresh salt, the hash of
     * "admin" under it, and the three saves (hash, salt, flag written as
     * `false`), each committing the whole buffer.
     */
    method InstallDefaultSecret(raw: seq<nat>, passwordCommitted: bool, saltCommitted: bool, flagCommitted: bool)
      returns (newSalt: string, hash: string)
      requires store.Valid() && |raw| >= SALT_LENGTH
      modifies store.mem, store`flash
      ensures store.Valid()
      ensures newSalt == SaltFrom(raw[..SALT_LENGTH])
      ensures hash == PasswordHash(sha256, DEFAULT_SECRET, newSalt)
      ensures store.mem[..] == Bootstrapped(old(store.mem[..]), newSalt, hash)
      ensures store.flash ==
        if flagCommitted then Flushed(old(store.flash), store.mem[..])
        else if saltCommitted then Flushed(old(store.flash), Stored(Stored(old(store.mem[..]), hash, PASSWORD_ADDR), newSalt, SALT_ADDR))
        else if passwordCommitted then Flushed(old(store.flash), Stored(old(store.mem[..]), hash, PASSWORD_ADDR))
        else old(store.flash)
    {
      ghost var m, f := store.mem[..], store.flash;
      newSalt := GenerateSalt(SALT_LENGTH, raw);
      hash := HashPasswordWithSalt(DEFAULT_SECRET, newSalt);
      var _ := store.SavePassword(hash, passwordCommitted);
      ghost var f0 := store.flash;
      var _ := store.SaveSalt(newSalt, saltCommitted);
      ghost var f1 := store.flash;
      var _ := store.SaveInitialized(false, flagCommitted);
      ghost var m0 := Stored(m, hash, PASSWORD_ADDR);
      BootstrapFlash(f, m0, Stored(m0, newSalt, SALT_ADDR), store.mem[..], f0, f1, store.flash,
                     passwordCommitted, saltCommitted, flagCommitted);
    }

    /** `checkPassword`: the candidate's salted hash equals the stored hash; never true while that is empty. */
    method CheckPassword(password: string) returns (ok: bool)
      ensures ok <==> PasswordHash(sha256, password, salt) == encryptedPassword
      ensures encryptedPassword == "" ==> !ok
    {
      var h := HashPasswordWithSalt(password, salt);
      HexLength(sha256(Bytes(salt + password)));
      ok := h == encryptedPassword;
    }

    /**
     * `updatePassword`: a fresh salt and the new hash replace the old ones and
     * are saved, salt first; the result is only the password save's. The
     * current token stays valid.
     */
    method UpdatePassword(newPassword: string, raw: seq<nat>, saltCommitted: bool, passwordCommitted: bool)
      returns (ok: bool)
      requires store.Valid() && |raw| >= SALT_LENGTH
      modifies this`salt, this`encryptedPassword, store.mem, store`flash
      ensures store.Valid()
      ensures salt == SaltFrom(raw[..SALT_LENGTH]) && |salt| == SALT_LENGTH
      ensures encryptedPassword == PasswordHash(sha256, newPassword, salt)
      ensures store.mem[..] == Stored(Stored(old(store.mem[..]), salt, SALT_ADDR), encryptedPassword, PASSWORD_ADDR)
      ensures ok == passwordCommitted
      ensures store.flash ==
        if passwordCommitted then Flushed(old(store.flash), store.mem[..])
        else if saltCommitted then Flushed(old(store.flash), Stored(old(store.mem[..]), salt, SALT_ADDR))
        else old(store.flash)
    {
      salt := GenerateSalt(SALT_LENGTH, raw);
      encryptedPassword := HashPasswordWithSalt(newPassword, salt);
      var _ := store.SaveSalt(salt, saltCommitted);
      ok := store.SavePassword(encryptedPassword, passwordCommitted);
    }

    /**
     * `generateToken`: hashes the seed text, stores the result as the only
     * current token and `now` (the `millis()` reading) as its issue time.
     */
    method GenerateToken(micros: uint32, raw: nat, now: uint32) returns (token: string)
      modifies this`currentToken, this`tokenTimestamp
      ensures token == TokenHash(sha256, TokenData(micros, raw, salt))
      ensures currentToken == token && tokenTimestamp == now
    {
      var tokenData := TokenData(micros, raw, salt);
      tokenTimestamp := now;
      currentToken := HashToken(tokenData);
      token := currentToken;
    }

    /** `checkToken`: the token is the current one and less than an hour has passed, counted modulo 2^32 ms. */
    function CheckToken(token: string, now: uint32): (ok: bool)
      reads this
      ensures ok <==> token == currentToken && Elapsed(tokenTimestamp, now) < TOKEN_VALIDITY_MS
    {
      token == currentToken && IsTokenValid(now)
    }

    /** `isTokenValid`: fewer than 3,600,000 ms since the token was issued, in unsigned 32-bit time. */
    function IsTokenValid(now: uint32): (valid: bool)
      reads this
      ensures valid <==> if tokenTimestamp <= now then now - tokenTimestamp < TOKEN_VALIDITY_MS
                         else now + 0x1_0000_0000 - tokenTimestamp < TOKEN_VALIDITY_MS
    {
      Elapsed(tokenTimestamp, now) < TOKEN_VALIDITY_MS
    }

    /** `generateSalt`: `length` characters, each `random(33, 126)`. */
    method GenerateSalt(length: nat, raw: seq<nat>) returns (s: string)
      requires |raw| >= length
      ensures s == SaltFrom(raw[..length])
      ensures |s| == length && forall i :: 0 <= i < length ==> 33 <= s[i] as int <= 125
    {
      s := "";
      for i := 0 to length
        invariant s == SaltFrom(raw[..i])
      {
        var randomChar := SaltChar(raw[i]);
        s := s + [randomChar];
        assert s == SaltFrom(raw[..i + 1]);
      }
    }

    /** `hashPasswordWithSalt`: SHA-256 of salt + password, each byte as "0" (below 16) and `String(b, HEX)`. */
    method HashPasswordWithSalt(password: string, salt: string) returns (h: string)
      ensures h == PasswordHash(sha256, password, salt)
    {
      var hash := sha256(Bytes(salt + password));
      h := "";
      for i := 0 to 32
        invariant h == Hex(hash[..i])
      {
        if hash[i] < 16 {
          h := h + "0";
        }
        HexStringPair(hash[i]);
        h := h + HexString(hash[i] as nat);
        assert hash[..i + 1][..i] == hash[..i];
      }
      assert hash[..32] == hash;
    }

    /** `hashToken`: SHA-256 of the data, each byte as `sprintf("%02x")`. */
    method HashToken(data: string) returns (h: string)
      ensures h == TokenHash(sha256, data)
    {
      var hash := sha256(Bytes(data));
      h := "";
      for i := 0 to 32
        invariant h == Hex(hash[..i])
      {
        HexStringPair(hash[i]);
        h := h + Format02x(hash[i] as nat);
        assert hash[..i + 1][..i] == hash[..i];
      }
      assert hash[..32] == hash;
    }
  }

  /** After `updatePassword(p)` the new password is accepted, whether or not either commit succeeded. */
  method UpdatedPasswordAccepted(auth: AuthManager, p: string, raw: seq<nat>, saltCommitted: bool, passwordCommitted: bool)
    returns (accepted: bool)
    requires auth.store.Valid() && |raw| >= SALT_LENGTH
    modifies auth`salt, auth`encryptedPassword, auth.store.mem, auth.store`flash
    ensures accepted
  {
    var _ := auth.UpdatePassword(p, raw, saltCommitted, passwordCommitted);
    accepted := auth.CheckPassword(p);
  }

  /** Booting with the flag unset installs "admin": the next `checkPassword("admin")` holds. */
  method BootstrapAcceptsAdmin(store: EepromLayoutManager, sha256: seq<byte> -> Digest, raw: seq<nat>,
                               c1: bool, c2: bool, c3: bool)
    returns (auth: AuthManager, accepted: bool)
    requires store.Valid() && INITIALIZED_ADDR + 4 <= store.mem.Length && |raw| >= SALT_LENGTH
    requires !InitializedOf(store.mem[..])
    modifies store.mem, store`flash
    ensures accepted
  {
    auth := new AuthManager(store, sha256, raw, c1, c2, c3);
    accepted := auth.CheckPassword(DEFAULT_SECRET);
  }

  /**
   * Booting with the flag set never assigns the password hash (the loaded one
   * is discarded), so every password is rejected.
   */
  method InitializedBootRejects(store: EepromLayoutManager, sha256: seq<byte> -> Digest, raw: seq<nat>,
                                password: string)
    returns (auth: AuthManager, accepted: bool)
    requires store.Valid() && INITIALIZED_ADDR + 4 <= store.mem.Length && |raw| >= SALT_LENGTH
    requires InitializedOf(store.mem[..])
    modifies store.mem, store`flash
    ensures !accepted
  {
    auth := new AuthManager(store, sha256, raw, false, false, false);
    accepted := auth.CheckPassword(password);
  }

  /**
   * Three saves in a row, each committing the whole buffer when its commit
   * succeeds: the sector ends up holding the buffer as of the last save whose
   * commit succeeded, or is unchanged when none did.
   */
  lemma BootstrapFlash(f: seq<byte>, m0: seq<byte>, m1: seq<byte>, m2: seq<byte>,
                       f0: seq<byte>, f1: seq<byte>, f2: seq<byte>, c0: bool, c1: bool, c2: bool)
    requires |m0| == |m1| == |m2| <= |f|
    requires f0 == if c0 then Flushed(f, m0) else f
    requires f1 == if c1 then Flushed(f0, m1) else f0
    requires f2 == if c2 then Flushed(f1, m2) else f1
    ensures f2 == if c2 then Flushed(f, m2) else if c1 then Flushed(f, m1) else if c0 then Flushed(f, m0) else f
  {
    FlushedOverwrites(f, m0, m1);
    FlushedOverwrites(f, m0, m2);
    FlushedOverwrites(f, m1, m2);
  }

  /** `String(b, HEX)` is one digit below 16 and two from 16 on; padding either way gives the pair. */
  lemma HexStringPair(b: byte)
    ensures b < 16 ==> "0" + HexString(b as nat) == HexPair(b)
    ensures b >= 16 ==> HexString(b as nat) == HexPair(b)
    ensures Format02x(b as nat) == HexPair(b)
  {
    var n := b as nat;
    if n >= 16 {
      assert HexString(n / 16) == [HexDigit(n / 16)];
    }
  }

  lemma {:induction false} HexLength(d: seq<byte>)
    ensures |Hex(d)| == 2 * |d|
    decreases |d|
  {
    if d != [] {
      HexLength(d[..|d| - 1]);
    }
  }

  /** Decoding the 64 hex characters of a hash gives back the digest bytes. */
  lemma {:induction false} HexRoundTrip(d: seq<byte>)
    ensures Unhex(Hex(d)) == d
    decreases |d|
  {
    if d != [] {
      var init, last := d[..|d| - 1], d[|d| - 1];
      HexLength(init);
      HexRoundTrip(init);
      var s := Hex(d);
      var n := |s|;
      assert s == Hex(init) + HexPair(last);
      assert s[..n - 2] == Hex(init);
      assert s[n - 2] == HexPair(last)[0] && s[n - 1] == HexPair(last)[1];
      HexPairRoundTrip(last);
      assert Unhex(s) == Unhex(Hex(init)) + [last];
      assert d == init + [last];
    }
  }

  lemma HexPairRoundTrip(b: byte)
    ensures LowByte(HexValue(HexPair(b)[0]) * 16 + HexValue(HexPair(b)[1])) == b
  {
    var hi, lo := b as int / 16, b as int % 16;
    HexValueOfDigit(hi);
    HexValueOfDigit(lo);
    assert hi * 16 + lo == b as int;
    assert LowByte(b as int) as int == b as int;
  }

  lemma HexValueOfDigit(d: nat)
    requires d < 16
    ensures HexValue(HexDigit(d)) == d
  {
    if d < 10 {
      assert HexDigit(d) as int == '0' as int + d;
    } else {
      assert HexDigit(d) as int == 'a' as int + d - 10;
    }
  }

  /** A password hash is 64 characters, so it never equals the empty stored hash. */
  lemma PasswordHashLength(sha256: seq<byte> -> Digest, password: string, salt: string)
    ensures |PasswordHash(sha256, password, salt)| == 64
  {
    HexLength(sha256(Bytes(salt + password)));
  }

  /** After `n` milliseconds (n < 2^32), the elapsed time is `n`, also across a rollover of `millis()`. */
  lemma ElapsedAcrossRollover(since: uint32, n: uint32)
    ensures Elapsed(since, (since + n) % 0x1_0000_0000) == n
  {
    var now := (since + n) % 0x1_0000_0000;
    if since + n < 0x1_0000_0000 {
      assert now == since + n;
    } else {
      assert now == since + n - 0x1_0000_0000;
      assert now - since == n - 0x1_0000_0000;
    }
  }

  /**
   * The current token is accepted for exactly the first 3,600,000 ms after it
   * was issued, wherever `millis()` stood when it was issued.
   */
  lemma TokenValidForOneHour(auth: AuthManager, n: uint32)
    ensures auth.CheckToken(auth.currentToken, (auth.tokenTimestamp + n) % 0x1_0000_0000) <==> n < TOKEN_VALIDITY_MS
  {
    ElapsedAcrossRollover(auth.tokenTimestamp, n);
  }

  /** Only the current token is ever accepted: issuing one retires every other. */
  lemma OnlyCurrentTokenAccepted(auth: AuthManager, token: string, now: uint32)
    requires token != auth.currentToken
    ensures !auth.CheckToken(token, now)
  {
  }

  /** Before any token is issued, the empty token is accepted while `millis()` is below one hour. */
  lemma EmptyTokenAcceptedInFirstHour(auth: AuthManager, now: uint32)
    requires auth.currentToken == "" && auth.tokenTimestamp == 0
    ensures auth.CheckToken("", now) <==> now < TOKEN_VALIDITY_MS
  {
  }

  /** The characters of a salt fit a byte and none is NUL, so the salt slot holds it exactly. */
  lemma SaltIsStorable(raw: seq<nat>)
    ensures IsByteString(SaltFrom(raw)) && NulFree(SaltFrom(raw))
  {
  }

  /**
   * The bootstrap writes the flag as `false`: the next construction finds it
   * unset and bootstraps again. The salt it saved loads back unchanged.
   */
  lemma BootstrapRepeats(m: seq<byte>, raw: seq<nat>, hash: string)
    requires INITIALIZED_ADDR + 4 <= |m| && |raw| == SALT_LENGTH
    ensures !InitializedOf(Bootstrapped(m, SaltFrom(raw), hash))
    ensures SaltOf(Bootstrapped(m, SaltFrom(raw), hash)) == SaltFrom(raw)
  {
    var salt := SaltFrom(raw);
    var m0 := Stored(m, hash, PASSWORD_ADDR);
    var m1 := Stored(m0, salt, SALT_ADDR);
    var m2 := PutInt(m1, 0, INITIALIZED_ADDR);
    assert m2 == Bootstrapped(m, salt, hash);
    IntRoundTrip(m1, 0, INITIALIZED_ADDR);
    SaltIsStorable(raw);
    StringRoundTrip(m0, salt, SALT_ADDR, FIELD_MAX_LEN);
    PutIntLeavesStringsBelow(m1, 0, INITIALIZED_ADDR, SALT_ADDR, FIELD_MAX_LEN);
  }
}
