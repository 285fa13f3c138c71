/**
  The server's configuration: its value type and defaults, the JSON
  fallback rule for omitted fields, and the process-wide write-once slot
  that holds the configuration once startup has committed it.
 */
module ServerConfig {
  import opened Wrappers

  /** An 8-bit unsigned value: one octet of an IPv4 address. */
  newtype octet = x: int | 0 <= x < 0x100

  /** A 16-bit unsigned value: a port number or an IPv6 segment. */
  newtype uint16 = x: int | 0 <= x < 0x1_0000

  /** The eight 16-bit segments of an IPv6 address. */
  type Ipv6Segments = s: seq<uint16> | |s| == 8 witness [0, 0, 0, 0, 0, 0, 0, 0]

  /** `std::net::IpAddr`. */
  datatype IpAddr =
    | V4(a: octet, b: octet, c: octet, d: octet)
    | V6(segments: Ipv6Segments)

  /** `std::net::SocketAddr`: an address and a port. */
  datatype SocketAddr = SocketAddr(ip: IpAddr, port: uint16)

  /** `Config`: where to listen, and whether the diagnostic route is enabled. */
  datatype Config = Config(address: SocketAddr, debug: bool)

  /** `Config::default()`: all interfaces (0.0.0.0) on port 8888, diagnostics off. */
  function DefaultConfig(): (c: Config)
    ensures c.address.ip == V4(0, 0, 0, 0) && c.address.port == 8888
    ensures !c.debug
  {
    Config(SocketAddr(V4(0, 0, 0, 0), 8888), false)
  }

  /**
    What the JSON decoder found in a well-formed configuration object:
    each field either present with a well-typed value or omitted. A
    malformed file never yields a document.
   */
  datatype ConfigDocument = ConfigDocument(address: Option<SocketAddr>, debug: Option<bool>)

  /**
    `#[serde(default)]` on `Config`: each field is taken from the document
    when present and from `Config::default()` when omitted, independently
    of the other field.
   */
  function FromDocument(doc: ConfigDocument): (c: Config)
    ensures doc.address.Some? ==> c.address == doc.address.value
    ensures doc.address.None? ==> c.address == DefaultConfig().address
    ensures doc.debug.Some? ==> c.debug == doc.debug.value
    ensures doc.debug.None? ==> c.debug == DefaultConfig().debug
  {
    var default := DefaultConfig();
    Config(doc.address.GetOr(default.address), doc.debug.GetOr(default.debug))
  }

  /** The document that spells out every field of `c`. */
  function DocumentOf(c: Config): (doc: ConfigDocument) {
    ConfigDocument(Some(c.address), Some(c.debug))
  }

  /** A document that lists every field decodes to exactly the configuration it lists. */
  lemma CompleteDocumentRoundTrip(c: Config)
    ensures FromDocument(DocumentOf(c)) == c
  {
  }

  /** The empty object `{}` decodes to the default configuration. */
  lemma EmptyDocumentIsDefault()
    ensures FromDocument(ConfigDocument(None, None)) == DefaultConfig()
  {
  }

  /**
    `OnceLock::get_or_init`: an empty slot takes `value`; a filled slot
    keeps what it holds. Either way the slot ends up filled, and the value
    handed back is the one the slot now holds.
   */
  function GetOrInit(slot: Option<Config>, value: Config): (r: (Option<Config>, Config))
    ensures r.0.Some? && r.1 == r.0.value
    ensures slot.Some? ==> r.0 == slot
    ensures slot.None? ==> r.0 == Some(value)
  {
    match slot
    case Some(held) => (slot, held)
    case None => (Some(value), value)
  }

  /**
    The slot is write-once: after a first initialisation, any later one
    changes nothing and hands back the first writer's value.
   */
  lemma GetOrInitFirstWriterWins(slot: Option<Config>, first: Config, second: Config)
    ensures GetOrInit(GetOrInit(slot, first).0, second) == GetOrInit(slot, first)
    ensures slot.None? ==> GetOrInit(GetOrInit(slot, first).0, second).1 == first
  {
  }
}
