/** What several components share: the public return codes of src/hs_common.h and a few stock definitions. */
module Common {
  const HS_SUCCESS := 0
  const HS_INVALID := -1
  const HS_NOMEM := -2
  const HS_SCAN_TERMINATED := -3
  const HS_DB_VERSION_ERROR := -5
  const HS_DB_PLATFORM_ERROR := -6
  const HS_BAD_ALIGN := -8
  const HS_SCRATCH_IN_USE := -10
  const HS_INSUFFICIENT_SPACE := -12
  const HS_UNKNOWN_ERROR := -13

  const TWO32 := 0x1_0000_0000
  const TWO64 := 0x1_0000_0000_0000_0000

  /** ~0ULL as a report offset: nothing has been reported yet. */
  const NONE: nat := 0xFFFF_FFFF_FFFF_FFFF

  type Byte = n: nat | n < 256

  datatype Option<T> = None | Some(value: T)

  function Min(a: nat, b: nat): nat { if a <= b then a else b }

  function Max(a: nat, b: nat): nat { if a <= b then b else a }

  /** `s` with `data` written over it from `off` on. */
  function Splice<T>(s: seq<T>, off: nat, data: seq<T>): (r: seq<T>)
    requires off + |data| <= |s|
    ensures |r| == |s|
  {
    s[..off] + data + s[off + |data|..]
  }
}
