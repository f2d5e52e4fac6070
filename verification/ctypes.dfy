/**
 The C-level types and constants the pidmap tool relies on: optional
 out-pointers, the width of `unsigned long long`, `pid_t`, `errno` values,
 and the view of a byte buffer as a NUL-terminated string.
 */
module CTypes {

  /** A value that may be absent; used both for optional results and for
      out-pointers, where `None` stands for a NULL pointer. */
  datatype Option<+T> = None | Some(value: T)

  /** `ULLONG_MAX` for the 64-bit `unsigned long long` (also `guint64`). */
  const ULLONG_MAX: nat := 0xFFFF_FFFF_FFFF_FFFF

  /** 2^64, the modulus of 64-bit unsigned arithmetic. */
  const TWO64: nat := ULLONG_MAX + 1

  /** 2^32, the modulus of the 32-bit `pid_t`. */
  const TWO32: nat := 0x1_0000_0000

  /** `ENOENT` from <errno.h> on Linux. */
  const ENOENT: int := 2

  const NUL: char := '\0'

  /** Values of a 64-bit unsigned integer (`guint64`, `ino_t`, `unsigned long`). */
  type UInt64 = n: nat | n <= ULLONG_MAX

  /** Values of `pid_t`, a 32-bit signed integer on Linux. */
  type PidT = x: int | -0x8000_0000 <= x < 0x8000_0000

  /** The cast `(pid_t) v` of a 64-bit unsigned value: GCC reduces it
      modulo 2^32 into the signed range. */
  function ToPidT(v: UInt64): (p: PidT)
    ensures (v - p) % TWO32 == 0
    ensures v < 0x8000_0000 ==> p == v
  {
    var m := v % TWO32;
    if m < 0x8000_0000 then m else m - TWO32
  }

  /** The cast `(long unsigned) p` of a `pid_t`: the 64-bit unsigned value
      congruent to `p` modulo 2^64. */
  function ToULong(p: PidT): (u: UInt64)
    ensures (u - p) % TWO64 == 0
    ensures p >= 0 ==> u == p
  {
    if p >= 0 then p else p + TWO64
  }

  /** The string a C function sees in a buffer: everything before the first
      NUL character (the whole buffer if it holds none). */
  function CString(buf: string): (s: string)
    ensures NUL !in s
    ensures s <= buf
    ensures |s| < |buf| ==> buf[|s|] == NUL
  {
    if |buf| == 0 || buf[0] == NUL then [] else [buf[0]] + CString(buf[1..])
  }

  /** A buffer without NUL characters is its own C string. */
  lemma CStringOfPlainText(buf: string)
    requires NUL !in buf
    ensures CString(buf) == buf
  {
    assert forall k | 0 <= k < |buf| :: buf[k] in buf;
  }
}
