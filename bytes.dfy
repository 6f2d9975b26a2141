/**
  Bytes, the bootloader's constants and the few C library routines the
  bootloader relies on (strtol in base 16, strncmp, printf's %x), stated
  over byte sequences.
 */
module Bytes {

  newtype byte = x: int | 0 <= x < 256

  datatype Option<T> = None | Some(value: T)

  /** Concatenation is associative; called where a method's context is too large to find this unaided */
  lemma AppendAssoc<T>(a: seq<T>, b: seq<T>, c: seq<T>)
    ensures a + b + c == a + (b + c)
  {
  }

  // Constants of stm32_bootloader.h
  const BOOT_TIMEOUT: nat := 5000
  const UART_TIMEOUT: nat := 50
  const FRAME_SIZE: nat := 45
  const FRAME_DATA_SIZE: nat := 16
  const VAULT_HEIGHT: nat := 3
  const VAULT_WIDTH: nat := 8
  const VAULT_SIZE: nat := 24
  const VERSION_SIZE: nat := 3
  const COMMAND_LENGTH: nat := 3
  const APP_A: byte := 1
  const APP_B: byte := 2
  const APP_HEIGHT: nat := 256
  const APP_WIDTH: nat := 256
  const APP_SIZE: nat := 65536
  const FLASH_RETRY: nat := 5
  const BUFFER_SIZE: nat := 256
  /** strlen("01.00.00") + 2 for the trailing "\r\n" */
  const VERSION_TOKEN_LENGTH: nat := 10
  /** Offsets from the start of flash of the vault and of the two slots */
  const VAULT_OFFSET: nat := 0x10000
  const APP_OFFSET_A: nat := 0x20000
  const APP_OFFSET_B: nat := 0x50000
  /** The double-word, the unit of flash programming */
  const DOUBLE_WORD: nat := 8

  // ASCII codes used on the wire
  const LF: byte := 10
  const CR: byte := 13
  const COLON: byte := 58
  const DOT: byte := 46
  const ALL: seq<byte> := [65, 76, 76]     // "ALL"
  const DFU: seq<byte> := [68, 70, 85]     // "DFU"
  const OK: seq<byte> := [79, 75]          // "OK"
  const NO: seq<byte> := [78, 79]          // "NO"

  /** C's isspace in the "C" locale */
  predicate IsSpace(c: byte) {
    c == 32 || 9 <= c <= 13
  }

  predicate IsHexDigit(c: byte) {
    48 <= c <= 57 || 65 <= c <= 70 || 97 <= c <= 102
  }

  function HexValue(c: byte): (v: nat)
    requires IsHexDigit(c)
    ensures v < 16
  {
    if c <= 57 then (c - 48) as nat
    else if c <= 70 then (c - 55) as nat
    else (c - 87) as nat
  }

  /** The lower-case digit printf's %x writes for `v` */
  function HexDigit(v: nat): (c: byte)
    requires v < 16
    ensures IsHexDigit(c) && HexValue(c) == v
    ensures !(65 <= c <= 70)
  {
    if v < 10 then (48 + v) as byte else (87 + v) as byte
  }

  /** printf("%02x", v) */
  function Hex2(v: byte): (s: seq<byte>)
    ensures |s| == 2 && IsHexDigit(s[0]) && IsHexDigit(s[1])
    ensures 16 * HexValue(s[0]) + HexValue(s[1]) == v as int
  {
    [HexDigit(v as nat / 16), HexDigit(v as nat % 16)]
  }

  /** printf("%08x", v) for a value that fits in one byte */
  function Hex8(v: byte): (s: seq<byte>)
    ensures |s| == 8 && s[..6] == [48, 48, 48, 48, 48, 48] && s[6..] == Hex2(v)
  {
    [48, 48, 48, 48, 48, 48] + Hex2(v)
  }

  /** The first index at or after `i` that does not hold white space */
  function SkipSpace(s: seq<byte>, i: nat): (j: nat)
    requires i <= |s|
    ensures i <= j <= |s|
    ensures forall k :: i <= k < j ==> IsSpace(s[k])
    ensures j < |s| ==> !IsSpace(s[j])
    decreases |s| - i
  {
    if i < |s| && IsSpace(s[i]) then SkipSpace(s, i + 1) else i
  }

  /** The end of the run of hex digits that starts at `i` */
  function HexRun(s: seq<byte>, i: nat): (j: nat)
    requires i <= |s|
    ensures i <= j <= |s|
    ensures j < |s| ==> !IsHexDigit(s[j])
    decreases |s| - i
  {
    if i < |s| && IsHexDigit(s[i]) then HexRun(s, i + 1) else i
  }

  /** Every byte of the run is a hex digit */
  lemma {:induction false} HexRunDigits(s: seq<byte>, i: nat)
    requires i <= |s|
    ensures forall k :: i <= k < HexRun(s, i) ==> IsHexDigit(s[k])
    decreases |s| - i
  {
    if i < |s| && IsHexDigit(s[i]) {
      HexRunDigits(s, i + 1);
    }
  }

  /** The number the hex digits s[i..j] spell, most significant first */
  function HexNumber(s: seq<byte>, i: nat, j: nat): nat
    requires i <= j <= |s|
    requires forall k :: i <= k < j ==> IsHexDigit(s[k])
    decreases j - i
  {
    if j == i then 0 else 16 * HexNumber(s, i, j - 1) + HexValue(s[j - 1])
  }

  /** long is 32 bits wide on the Cortex-M4 */
  const LONG_MAX: int := 0x7FFF_FFFF
  const LONG_MIN: int := -0x8000_0000

  /**
    strtol(s, NULL, 16) where s holds the bytes from the argument on (its
    NUL, if any, stops the scan like any other non-digit): leading white space, an
    optional sign, an optional "0x"/"0X" prefix that is followed by a digit,
    then the longest run of hex digits; out-of-range values saturate.
   */
  function Strtol16(s: seq<byte>): (v: int)
    ensures LONG_MIN <= v <= LONG_MAX
  {
    var i := SkipSpace(s, 0);
    var negative := i < |s| && s[i] == 45;
    var k := if i < |s| && (s[i] == 43 || s[i] == 45) then i + 1 else i;
    var d := if k + 2 < |s| && s[k] == 48 && (s[k + 1] == 120 || s[k + 1] == 88) && IsHexDigit(s[k + 2])
             then k + 2 else k;
    var e := HexRun(s, d);
    HexRunDigits(s, d);
    var magnitude: int := HexNumber(s, d, e);
    if negative then (if magnitude > -LONG_MIN then LONG_MIN else -magnitude)
    else (if magnitude > LONG_MAX then LONG_MAX else magnitude)
  }

  /** The conversion of a C integer to uint8_t: reduction modulo 256 */
  function ToByte(v: int): byte {
    (v % 256) as byte
  }

  /** strtol of two hex digits that are not followed by a third one is their value */
  lemma HexPairValue(c0: byte, c1: byte, rest: seq<byte>)
    requires IsHexDigit(c0) && IsHexDigit(c1)
    requires rest == [] || !IsHexDigit(rest[0])
    ensures Strtol16([c0, c1] + rest) == 16 * HexValue(c0) + HexValue(c1)
    ensures ToByte(Strtol16([c0, c1] + rest)) as int == 16 * HexValue(c0) + HexValue(c1)
  {
    var s := [c0, c1] + rest;
    assert SkipSpace(s, 0) == 0;
    assert HexRun(s, 2) == 2;
    assert HexRun(s, 0) == 2;
    assert HexNumber(s, 0, 1) == HexValue(c0);
  }

  /** strncmp(a, b, n): compares as unsigned char, stops at a difference or at a common NUL */
  function Strncmp(a: seq<byte>, b: seq<byte>, n: nat): (r: int)
    requires n <= |a| && n <= |b|
    ensures -1 <= r <= 1
    ensures r == 0 <==> forall k :: 0 <= k < n && (forall m :: 0 <= m < k ==> a[m] != 0) ==> a[k] == b[k]
  {
    if n == 0 then 0
    else if a[0] != b[0] then (if a[0] < b[0] then -1 else 1)
    else if a[0] == 0 then 0
    else
      var r := Strncmp(a[1..], b[1..], n - 1);
      assert forall k :: 1 <= k < n ==> a[1..][k - 1] == a[k] && b[1..][k - 1] == b[k];
      r
  }

  /** At index k, the first place below n where a and b differ and before any common NUL, a's byte is the larger */
  predicate GreaterAt(a: seq<byte>, b: seq<byte>, n: nat, k: nat)
    requires n <= |a| && n <= |b|
  {
    && k < n
    && (forall m :: 0 <= m < k ==> a[m] == b[m] && a[m] != 0)
    && a[k] > b[k]
  }

  /** strncmp is positive exactly when a is the larger at the first difference before a common NUL */
  lemma {:induction false} StrncmpPositive(a: seq<byte>, b: seq<byte>, n: nat)
    requires n <= |a| && n <= |b|
    ensures Strncmp(a, b, n) > 0 <==> exists k: nat :: GreaterAt(a, b, n, k)
  {
    if n == 0 {
    } else if a[0] != b[0] {
      if a[0] > b[0] {
        assert GreaterAt(a, b, n, 0);
      }
    } else if a[0] == 0 {
    } else {
      StrncmpPositive(a[1..], b[1..], n - 1);
      if Strncmp(a, b, n) > 0 {
        var k: nat :| GreaterAt(a[1..], b[1..], n - 1, k);
        assert forall m :: 1 <= m < k + 1 ==> a[m] == a[1..][m - 1] && b[m] == b[1..][m - 1];
        assert GreaterAt(a, b, n, k + 1);
      } else if exists k: nat :: GreaterAt(a, b, n, k) {
        var k: nat :| GreaterAt(a, b, n, k);
        assert k > 0;
        assert GreaterAt(a[1..], b[1..], n - 1, k - 1);
      }
    }
  }

  /** Swapping the arguments of strncmp negates its result */
  lemma {:induction false} StrncmpAntisymmetric(a: seq<byte>, b: seq<byte>, n: nat)
    requires n <= |a| && n <= |b|
    ensures Strncmp(a, b, n) == -Strncmp(b, a, n)
  {
    if n > 0 && a[0] == b[0] && a[0] != 0 {
      StrncmpAntisymmetric(a[1..], b[1..], n - 1);
    }
  }

  /** A string with no NUL in its first n bytes equals another under strncmp exactly when the bytes agree */
  lemma {:induction false} StrncmpNoNul(a: seq<byte>, b: seq<byte>, n: nat)
    requires n <= |a| && n <= |b|
    requires forall k :: 0 <= k < n ==> b[k] != 0
    ensures Strncmp(a, b, n) == 0 <==> a[..n] == b[..n]
  {
    if Strncmp(a, b, n) == 0 {
      forall k | 0 <= k < n ensures a[k] == b[k] {
        var j := 0;
        while j < k
          invariant j <= k
          invariant forall m :: 0 <= m < j ==> a[m] == b[m] && a[m] != 0
        {
          assert a[j] == b[j];
          j := j + 1;
        }
      }
    }
  }
}
