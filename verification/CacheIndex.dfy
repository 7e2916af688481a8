/**
 The cache index and its entries (crates/whirl-core/src/state.rs:196-219, 569-592).
 */
module CacheIndex {
  import opened Basics

  datatype Kind = Local | Wallhaven | External

  datatype Entry = Entry(
    ext: string, bytes: nat, firstSeen: string, lastUsed: string, source: string, kind: Kind,
    origin: Option<string>, originKey: string, width: Option<nat>, height: Option<nat>, pinned: bool)

  datatype IndexFile = IndexFile(
    seqNo: nat, writtenAt: string, rootId: string, entries: map<string, Entry>, dangling: seq<string>)
}
