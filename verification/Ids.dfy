/** Identifiers and events shared by the modules (ids.rs, kv_event.rs). */
module Ids {
  import opened CuckooFilter

  datatype BackendId = BackendId(region: string, instance: string)
  type RegionId = string

  /** Events that change which blocks a backend holds; logging-only fields are dropped. */
  datatype KvCacheEvent =
    | Stored(blockHashes: seq<Hash>)
    | Removed(blockHashes: seq<Hash>)
    | Clear
    | Reset
}
