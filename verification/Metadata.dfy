/** Connection metadata (redog-core/src/metadata.rs): what rules look at, and how a destination prints. */
module Metadata {
  import opened Bits
  import opened Options
  import opened Text

  datatype Ip = V4(addr: U32) | V6(bits: nat)

  datatype Connection = Connection(
    srcIp: Ip,
    srcPort: U16,
    dstIp: Option<Ip>,
    dstPort: U16,
    host: Option<string>)

  /** The domain when there is one, else the address as `ipText` prints it, else nothing. */
  function RemoteHost(c: Connection, ipText: Ip -> string): string {
    if c.host.Some? then c.host.value
    else if c.dstIp.Some? then ipText(c.dstIp.value)
    else ""
  }

  function Authority(host: string, port: U16): string {
    if host == "" then ":" + Print(port) else host + ":" + Print(port)
  }

  function Destination(c: Connection, ipText: Ip -> string): string {
    Authority(RemoteHost(c, ipText), c.dstPort)
  }
}
