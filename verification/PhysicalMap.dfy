// Where the kernel can reach physical memory (Memory/PhysicalMap.cpp): in early boot directly, below 4 GB; later
// through the 2 TB aperture.
module PhysicalMap {
  const EARLY_LIMIT: nat := 0x1_0000_0000
  const APERTURE_LENGTH: nat := 0x200_0000_0000

  // Add, for a length that is not zero; it halts the kernel for other addresses.
  predicate Mappable(physical: nat, early: bool) {
    physical < if early then EARLY_LIMIT else APERTURE_LENGTH
  }
}
