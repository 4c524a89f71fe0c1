// The type of a coefficient.
module Coefs {
  function Abs(v: int): nat { if v < 0 then -v else v }

  // JCOEF is a 16-bit integer; assigning to it wraps.
  predicate IsJcoef(v: int) {
    -0x8000 <= v < 0x8000
  }

  function ToJcoef(v: int): (r: int)
    ensures IsJcoef(r) && (IsJcoef(v) ==> r == v)
  {
    (v + 0x8000) % 0x1_0000 - 0x8000
  }
}
