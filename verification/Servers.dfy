/** The configuration a request is resolved against. */
module Servers {
  import opened Bytes
  import opened StartLine

  /** `uri_location_t`, without the fields that only the response uses. */
  datatype Location = Location(
    uri: bytes, root: bytes, index: bytes, savedPath: bytes, cgiPass: bytes, cgiPathInfo: bytes,
    accepted: set<Method>, maxBodySize: nat)

  /** `server_info_t` */
  datatype Server = Server(
    port: nat, isDefault: bool, name: bytes, uriCase: map<bytes, Location>, cgiCase: map<bytes, Location>)
}
