/** Network endpoints. The relay uses `IPEndPoint`; the model keeps IPv4
    endpoints, an address and a port, compared by value. */
module Net {
  import opened Bytes

  datatype Endpoint = Endpoint(address: uint32, port: uint16)
}
