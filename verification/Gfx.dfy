/** Hardware generations, as gfx_target_version values (include/libkfd/abi.h:24-36), and the scratch granule
    (include/libkfd/detail/scratch.h:28-30). */
module Gfx {
  const GFX9: nat := 90000
  const GFX10_1: nat := 100100
  const GFX11: nat := 110000
  const GFX12: nat := 120000
  const GFX1250: nat := 120500

  function AlignmentUnit(gfx: nat): (u: nat)
    ensures u == 256 || u == 1024
  {
    if gfx >= GFX11 then 256 else 1024
  }
}
