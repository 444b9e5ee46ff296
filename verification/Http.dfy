/** HTTP messages (include/net77/http/serde.h). */
module Http {
  datatype Version = Http09 | Http10 | Http11 {
    /** The enumeration constant, which the receive controller uses as part of its state key. */
    function Code(): nat {
      match this case Http09 => 9 case Http10 => 10 case Http11 => 11
    }
  }

  datatype Method = Get | Head | Post | Put | Delete | Connect | Options | Trace | Patch

  datatype Field = Field(name: string, value: string)

  datatype Header = AsString(text: string) | AsOwnedString(owned: string) | AsStruct(fields: seq<Field>)

  datatype Request = Request(meth: Method, url: string, version: Version, head: Header, body: string)

  datatype Response = Response(version: Version, statusCode: int, statusMsg: string, head: Header, body: string)

  function MethodText(m: Method): string {
    match m
    case Get => "GET" case Head => "HEAD" case Post => "POST" case Put => "PUT" case Delete => "DELETE"
    case Connect => "CONNECT" case Options => "OPTIONS" case Trace => "TRACE" case Patch => "PATCH"
  }

  function VersionText(v: Version): string {
    match v case Http09 => "HTTP/0.9" case Http10 => "HTTP/1.0" case Http11 => "HTTP/1.1"
  }
}
