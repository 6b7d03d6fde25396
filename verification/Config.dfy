/** Build-time constants of pseudo_core_tech (config.h, cache.h, ring_cache.h). */
module Config {
  type uint64 = x: int | 0 <= x < 0x1_0000_0000_0000_0000
  type byte = x: int | 0 <= x < 256

  const BLOCK_SIZE := 4096
  const PAGE_SIZE := BLOCK_SIZE
  const HASH_SIZE := 2048
  const MAX_CACHE_ENTRIES := 8192
  const CORES := 4
  const MIGRATION_THRESHOLD := 5
  const RING_SIZE := 128 * 1024 * 1024
}
