/** The parts of a servlet request the interceptors read. */
module Http {
  import opened Wrappers

  /** `headers` maps a header name to its value; a name that is absent is a header the
      request does not carry (`getHeader` returns null). */
  datatype Request = Request(requestUri: string, headers: map<string, string>, remoteAddr: string) {

    /** `request.getHeader(name)`. */
    function GetHeader(name: string): (v: Option<string>)
      ensures v.Some? <==> name in headers
      ensures v.Some? ==> v.value == headers[name]
    {
      if name in headers then Some(headers[name]) else None
    }
  }
}
