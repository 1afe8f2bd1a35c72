/**
 * The address validator of the system-call layer: the one test the kernel
 * applies before it dereferences an address the user program supplied.
 */
module Validator {
  import opened Words

  const NULL: u32 := 0

  /** Lowest address of a loaded user program; defined in the system-call source itself. */
  const CODE_PHYS_BASE: u32 := 0x0804_8000

  /**
   * The user/kernel partition line (3 GB). It comes from threads/loader.h,
   * which is not part of this model; the value is that header's.
   */
  const LOADER_PHYS_BASE: u32 := 0xC000_0000

  /**
   * A process's page directory, seen only through `pagedir_get_page`: the set
   * of user addresses that translate to a mapped page.
   */
  type PageDir = set<u32>

  /** `pagedir_get_page (pd, vaddr) != NULL` */
  predicate IsMapped(pd: PageDir, vaddr: u32) {
    vaddr in pd
  }

  /**
   * `is_valid_memory_access`: non-null, strictly below the partition line,
   * strictly above the code base, and mapped.
   */
  function IsValidMemoryAccess(pd: PageDir, vaddr: u32): (ok: bool)
    ensures ok ==> vaddr != NULL && IsMapped(pd, vaddr)
    ensures ok ==> CODE_PHYS_BASE < vaddr < LOADER_PHYS_BASE
    ensures !ok ==> vaddr == NULL || !IsMapped(pd, vaddr)
                    || vaddr <= CODE_PHYS_BASE || LOADER_PHYS_BASE <= vaddr
  {
    vaddr != NULL && vaddr < LOADER_PHYS_BASE && vaddr > CODE_PHYS_BASE && IsMapped(pd, vaddr)
  }

  /** The mapped addresses of the user region, as a set built from the page directory. */
  function MappedUserAddresses(pd: PageDir): (region: set<u32>)
    ensures region <= pd
    ensures NULL !in region && CODE_PHYS_BASE !in region && LOADER_PHYS_BASE !in region
  {
    set a | a in pd && CODE_PHYS_BASE < a < LOADER_PHYS_BASE
  }

  /** An address is valid exactly when it is a mapped address of the user region. */
  lemma ValidIffMappedUserAddress(pd: PageDir, vaddr: u32)
    ensures IsValidMemoryAccess(pd, vaddr) <==> vaddr in MappedUserAddresses(pd)
  {
  }

  /**
   * Both bounds are exclusive: the code base itself, the partition line and
   * everything above it are rejected whatever the page directory maps, and so
   * is null.
   */
  lemma BoundsAreExclusive(pd: PageDir, vaddr: u32)
    requires vaddr == NULL || vaddr == CODE_PHYS_BASE || vaddr >= LOADER_PHYS_BASE
    ensures !IsValidMemoryAccess(pd, vaddr)
  {
  }

  /** The first and last addresses of the user region are accepted exactly when mapped. */
  lemma InnermostAddressesNeedOnlyMapping(pd: PageDir)
    ensures IsValidMemoryAccess(pd, CODE_PHYS_BASE + 1) <==> CODE_PHYS_BASE + 1 in pd
    ensures IsValidMemoryAccess(pd, LOADER_PHYS_BASE - 1) <==> LOADER_PHYS_BASE - 1 in pd
  {
  }

  /**
   * A valid address leaves room for the three argument words above it: the
   * word cursor starting from a valid stack pointer never wraps around 2^32.
   */
  lemma ValidAddressLeavesRoomForArguments(pd: PageDir, vaddr: u32)
    requires IsValidMemoryAccess(pd, vaddr)
    ensures vaddr + 12 < WORD_MODULUS
  {
  }
}
