/** Constants declared at the crate root (src/main.rs) and shared by the
    `tcp` module and the dispatch loop. */
module CrateRoot {
  import opened Prelude

  /** IP protocol number of TCP. */
  const TCP_PROTOCOL: u8 := 6

  /** Offset of the IPv4 header in a received frame: the interface delivers
      bare IP datagrams, without link-layer framing. */
  const ETH_HEADER_OFFSET: nat := 0
}
