/** The configuration entities shared by the store, the API and the project comparison. */
module Core {
  datatype Tag = Tag(id: string, nodeId: string, path: string, datatyp: string, enabled: bool,
                     intervalMs: int, writable: bool, simulate: bool, mode: string)

  datatype Device = Device(id: string, endpoint: string, username: string, password: string,
                           security: string, pollConcurrency: int, tags: seq<Tag>)
}
