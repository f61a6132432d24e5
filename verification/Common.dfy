/** Types shared by every component: bytes, error codes and optional values. */
module Common {

  type byte = b: int | 0 <= b < 256

  type bytes = seq<byte>

  /** The GgError classes that the modelled code can return. */
  datatype Error =
    | Ok | Failure | Invalid | Parse | Range | NoMem | NoEntry | Remote | Timeout

  datatype Option<+T> = None | Some(value: T)

  const UINT16_MAX := 65535
  const UINT32_MAX := 0xFFFF_FFFF
  const INT32_MAX := 0x7FFF_FFFF

  /** A byte as a number that further arithmetic may take out of a byte's range. */
  function Num(b: byte): nat {
    b
  }

  /** The bytes of ASCII text. */
  function Ascii(s: string): (r: bytes)
    requires forall i :: 0 <= i < |s| ==> s[i] < 128 as char
    ensures |r| == |s| && forall i :: 0 <= i < |s| ==> r[i] == s[i] as int
  {
    seq(|s|, i requires 0 <= i < |s| => s[i] as int)
  }

  /** Order of byte strings: the first difference decides, and a proper prefix comes first. */
  predicate LexLess(a: bytes, b: bytes) {
    exists k :: 0 <= k <= |a| && k < |b| && a[..k] == b[..k] && (k == |a| || a[k] < b[k])
  }

  function Min(a: int, b: int): int {
    if a < b then a else b
  }
}
