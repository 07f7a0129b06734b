/**
 * HoneypotSystem.create_response: a fixed table from the monitored ports to
 * canned service banners. Ports outside the table get the empty reply,
 * which the connection handler takes as "send nothing". The protocol
 * argument is not consulted.
 */
module Responder {
  import opened Bytes

  /** The ports the honeypot listens on, in the source's order. */
  const Ports: seq<int> := [21, 22, 23, 25, 80, 110, 143, 443, 3306, 3389, 5432, 8080]

  // The banners, byte for byte. Long literals are written line by line.
  const FtpBanner := Ascii("220 ProFTPD 1.3.5 Server (Debian) " + "[::ffff:192.168.1.1]\r\n")
  const SshBanner := Ascii("SSH-2.0-OpenSSH_7.4\r\n")
  const TelnetBanner := Ascii("Ubuntu 18.04.3 LTS\n" + "login: ")
  const SmtpBanner := Ascii("220 smtp.example.com " + "ESMTP Postfix\r\n")
  const ApacheBanner := Ascii("HTTP/1.1 200 OK\r\n" + "Server: Apache/2.4.41 (Ubuntu)\r\n" + "\r\n")
  const Pop3Banner := Ascii("+OK POP3 server ready\r\n")
  const ImapBanner := Ascii("* OK [CAPABILITY IMAP4rev1] " + "IMAP4 Server\r\n")
  const NginxBanner := Ascii("HTTP/1.1 200 OK\r\n" + "Server: nginx/1.18.0\r\n" + "\r\n")
  /** A MySQL greeting: 4a 00 00 00 0a, the version text, then a zero byte. */
  const MySqlGreeting: seq<Byte> := [0x4a, 0x00, 0x00, 0x00, 0x0a] + Ascii("5.7.31-0ubuntu0.18.04.1") + [0x00]
  /** An RDP connection confirm; the source's `\x124` is the byte 0x12 followed by the digit 4. */
  const RdpConfirm: seq<Byte> := [0x03, 0x00, 0x00, 0x13, 0x0e, 0xd0, 0x00, 0x00, 0x12] + Ascii("4") + [0x00]
  const PostgresBanner := Ascii("PostgreSQL 12.4 on " + "x86_64-pc-linux-gnu")
  const TomcatBanner := Ascii("HTTP/1.1 200 OK\r\n" + "Server: Tomcat/9.0.37\r\n" + "\r\n")

  /** The `responses` dictionary. */
  const Responses: map<int, seq<Byte>> := map[
    21 := FtpBanner, 22 := SshBanner, 23 := TelnetBanner, 25 := SmtpBanner,
    80 := ApacheBanner, 110 := Pop3Banner, 143 := ImapBanner, 443 := NginxBanner,
    3306 := MySqlGreeting, 3389 := RdpConfirm, 5432 := PostgresBanner, 8080 := TomcatBanner]

  /**
   * `responses.get(port, b"")`. Every monitored port, and only a monitored
   * port, gets a non-empty banner; any other port gets nothing.
   */
  function CreateResponse(port: int, protocol: string): (r: seq<Byte>)
    ensures |r| > 0 <==> port in Ports
    ensures port !in Ports ==> r == []
    ensures port in Ports ==> r == Responses[port]
  {
    if port in Responses then Responses[port] else []
  }

  /** The reply does not depend on the protocol tag. */
  lemma ResponseIgnoresProtocol(port: int, a: string, b: string)
    ensures CreateResponse(port, a) == CreateResponse(port, b)
  {
  }

  /** Twelve distinct ports are monitored, and they are exactly the keys of the banner table. */
  lemma MonitoredPorts()
    ensures |Ports| == 12
    ensures forall i, j :: 0 <= i < j < |Ports| ==> Ports[i] != Ports[j]
    ensures forall p :: p in Responses <==> p in Ports
  {
  }
}
