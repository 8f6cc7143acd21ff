/** `SendReceiveMode`: the media direction attributes of section 6 of
    RFC 4566. The C# enum is an `int` underneath, so a value outside the
    four names can be held; `ToSdpValue` maps it to null. */
module SendReceiveMode {
  import opened Results
  import opened Bytes

  /** The enum, by its underlying value. */
  type Mode = int32

  const SendRecv: Mode := 0
  const RecvOnly: Mode := 1
  const SendOnly: Mode := 2
  const Inactive: Mode := 3

  /** The four named members. */
  predicate Named(m: Mode)
  {
    m == SendRecv || m == RecvOnly || m == SendOnly || m == Inactive
  }

  /** `default(SendReceiveMode)`, what a fresh media description holds. */
  const Default: Mode := 0

  /** `ToSdpValue`: the attribute name of a named mode, null otherwise. */
  function ToSdpValue(m: Mode): (r: Option<string>)
    ensures r.Some? <==> Named(m)
  {
    if m == SendRecv then Some("sendrecv")
    else if m == SendOnly then Some("sendonly")
    else if m == RecvOnly then Some("recvonly")
    else if m == Inactive then Some("inactive")
    else None
  }

  /** The default is send-and-receive, as section 6 of RFC 4566 assumes
      when no direction attribute is present. */
  lemma DefaultIsSendRecv()
    ensures Default == SendRecv && ToSdpValue(Default) == Some("sendrecv")
  {
  }

  /** Distinct named modes print differently. */
  lemma ToSdpValueInjective(a: Mode, b: Mode)
    requires Named(a) && Named(b) && a != b
    ensures ToSdpValue(a) != ToSdpValue(b)
  {
  }
}
