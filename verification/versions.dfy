/** The archive version codes the reader names (the VersionType enum). */
module Versions {
  import opened Binary

  const TES4: u32 := 0x67
  /** Fallout 3, New Vegas and Skyrim. */
  const FO3: u32 := 0x68
  /** Skyrim Special Edition: the only code with 24-byte folder records. */
  const SSE: u32 := 0x69
  const FO4: u32 := 0x01
  /** Not a real Bethesda version number; selects plain ASCII text. */
  const TES3: u32 := 0xFF
}
