/** Host announcements as they travel and as the daemon handles them (internal/discovery/broadcast.go). */
module Announcement {
  import opened Common
  import Gate = ListenerGate

  /** Go tells nil slices from empty ones. */
  datatype Slice<T> = Nil | Elems(elems: seq<T>)

  function Contents<T>(s: Slice<T>): seq<T> {
    if s.Nil? then [] else s.elems
  }

  datatype Service = Service(name: string, port: int, addr: string, aliases: Slice<string>)

  datatype Message = Message(
    kind: string,
    messageId: string,
    timestamp: int,
    hostname: string,
    machineId: string,
    ips: Slice<string>,
    services: Slice<Service>,
    signature: Option<Gate.MessageSecurity>,
    ttl: int)
}
