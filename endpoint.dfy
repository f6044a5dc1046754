/** `createXmlClient` (src/poster.js:26-39, and the identical src/checker.js:13-26): the
    XML-RPC endpoint a site is probed on. */
module Endpoint {

  /** `xmlrpc.createSecureClient` (TLS) or `xmlrpc.createClient` (plain HTTP). */
  datatype ClientKind = SecureClient | PlainClient

  /** The options object and the kind of client built from it. */
  datatype XmlClient = XmlClient(kind: ClientKind, host: string, port: nat, path: string)

  /** The fixed path of the XML-RPC endpoint of a WordPress site. */
  const XmlRpcPath: string := "/xmlrpc.php"

  const HttpsPort: nat := 443
  const HttpPort: nat := 80

  /** The port follows the protocol as the URL parser reports it, colon included; the client
      kind then follows the port. */
  function CreateXmlClient(hostname: string, protocol: string): (c: XmlClient)
    ensures c.host == hostname && c.path == XmlRpcPath
    ensures c.port == HttpsPort <==> protocol == "https:"
    ensures c.port != HttpsPort ==> c.port == HttpPort
    ensures c.kind == SecureClient <==> protocol == "https:"
  {
    var port := if protocol == "https:" then HttpsPort else HttpPort;
    XmlClient(if port == HttpsPort then SecureClient else PlainClient, hostname, port, XmlRpcPath)
  }

  /** The protocol must carry its colon: "https" alone (or any other spelling) falls back to
      port 80 and a plain client. */
  lemma ProtocolWithoutColonIsPlain(hostname: string)
    ensures CreateXmlClient(hostname, "https").port == HttpPort
    ensures CreateXmlClient(hostname, "https").kind == PlainClient
  {
  }
}
