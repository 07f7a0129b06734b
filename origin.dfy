/**
 * The origin filter of HoneypotSystem.is_local_ip: traffic from the machine
 * itself is not recorded. The test is exact string membership in a list of
 * four spellings; nothing is parsed or normalised, so LAN addresses and
 * other spellings of loopback count as real traffic.
 */
module OriginFilter {

  /** The addresses treated as "this machine". */
  const LocalhostIps: seq<string> := ["127.0.0.1", "localhost", "::1", "0.0.0.0"]

  /** `ip in localhost_ips`. */
  function IsLocalIp(ip: string): (r: bool)
    ensures r <==> ip == "127.0.0.1" || ip == "localhost" || ip == "::1" || ip == "0.0.0.0"
  {
    ip in LocalhostIps
  }

  /**
   * No canonicalisation: private ranges, public addresses, other loopback
   * addresses, IPv4-mapped loopback and a different letter case are all
   * real traffic.
   */
  lemma OnlyExactSpellingsAreLocal()
    ensures !IsLocalIp("192.168.1.50") && !IsLocalIp("8.8.8.8")
    ensures !IsLocalIp("127.0.0.2") && !IsLocalIp("::ffff:127.0.0.1")
    ensures !IsLocalIp("LOCALHOST") && !IsLocalIp("0:0:0:0:0:0:0:1")
  {
  }
}
