/** kernel/include/aurelian/boot.h: what the loaders hand to the kernel. */
module BootAbi {
  import opened Bits

  const MEM_USABLE := 1
  const MEM_RESERVED := 2
  const MEM_ACPI_RECLAIMABLE := 3
  const MEM_ACPI_NVS := 4

  datatype Region = Region(base: Word, length: Word, kind: nat, flags: nat)

  /** uint32_t */
  type Word32 = w: int | 0 <= w < U32

  datatype Framebuffer = Framebuffer(
    address: Word, width: Word32, height: Word32, pitch: Word32, bpp: Word32,
    redSize: Word32, redShift: Word32, greenSize: Word32, greenShift: Word32, blueSize: Word32, blueShift: Word32)

  const MAX_DIMENSION := 8192

  /** uint8_t of a mask size or shift, as the surface keeps it */
  function Narrow(x: Word32): Byte {
    x % 256
  }

  predicate MasksFit(size: Byte, shift: Byte) {
    1 <= size <= 8 && shift <= 31 && size + shift <= 32
  }

  /** The descriptors aurelion_framebuffer_init accepts */
  predicate Accepted(fb: Framebuffer) {
    && fb.address != 0 && 0 < fb.width <= MAX_DIMENSION && 0 < fb.height <= MAX_DIMENSION
    && (fb.bpp == 24 || fb.bpp == 32)
    && fb.pitch >= fb.width * (fb.bpp / 8)
    && MasksFit(Narrow(fb.redSize), Narrow(fb.redShift))
    && MasksFit(Narrow(fb.greenSize), Narrow(fb.greenShift))
    && MasksFit(Narrow(fb.blueSize), Narrow(fb.blueShift))
  }
}
