/**
 * HoneypotSystem.analyze_attack: an ordered, first-match decision list over
 * the ASCII-lower-cased payload and the port the connection arrived on.
 * Each rule yields one of nine fixed (attack type, severity) pairs.
 */
module Classifier {
  import opened Bytes

  datatype AttackType =
    | SqlInjection
    | XssAttack
    | DirectoryTraversal
    | CredentialStuffing
    | SshScan
    | MySqlAttack
    | RdpAttack
    | HttpRecon
    | PortScan

  datatype Severity = Low | Medium | High

  datatype Verdict = Verdict(kind: AttackType, severity: Severity)

  /** The attack-type text the source stores in the event. */
  function TypeLabel(t: AttackType): string {
    match t
    case SqlInjection => "SQL Injection"
    case XssAttack => "XSS Attack"
    case DirectoryTraversal => "Directory Traversal"
    case CredentialStuffing => "Brute Force / Credential Stuffing"
    case SshScan => "SSH Scanning/Attack"
    case MySqlAttack => "MySQL Attack"
    case RdpAttack => "RDP Attack"
    case HttpRecon => "HTTP Reconnaissance"
    case PortScan => "Port Scanning"
  }

  /** The severity text the source stores in the event. */
  function SeverityLabel(s: Severity): string {
    match s
    case Low => "LOW"
    case Medium => "MEDIUM"
    case High => "HIGH"
  }

  /** Distinct attack types are stored under distinct labels. */
  lemma TypeLabelInjective(a: AttackType, b: AttackType)
    requires TypeLabel(a) == TypeLabel(b)
    ensures a == b
  {
  }

  /** The severity that goes with each attack type (every rule pairs them the same way). */
  function SeverityOf(t: AttackType): Severity {
    match t
    case SqlInjection | XssAttack | MySqlAttack | RdpAttack => High
    case DirectoryTraversal | CredentialStuffing | SshScan => Medium
    case HttpRecon | PortScan => Low
  }

  // The byte literals the rules search for, exactly as in the source.
  const Select := Ascii("select")
  const Union := Ascii("union")
  const Drop := Ascii("drop")
  const ScriptTag := Ascii("<script")
  const JavascriptUrl := Ascii("javascript:")
  const DotDotSlash := Ascii("../../../")
  const DotDotBackslash := Ascii("..\\..\\")
  const Admin := Ascii("admin")
  const Root := Ascii("root")
  const Password := Ascii("password")
  const SshWord := Ascii("ssh")
  const MySqlWord := Ascii("mysql")
  const GetSlash := Ascii("get /")
  const PostSlash := Ascii("post /")

  // The conditions of the decision list, over the lower-cased payload `dl`.

  predicate SqlKeyword(dl: seq<Byte>) {
    Contains(dl, Select) || Contains(dl, Union) || Contains(dl, Drop)
  }

  predicate ScriptMarker(dl: seq<Byte>) {
    Contains(dl, ScriptTag) || Contains(dl, JavascriptUrl)
  }

  predicate TraversalPattern(dl: seq<Byte>) {
    Contains(dl, DotDotSlash) || Contains(dl, DotDotBackslash)
  }

  predicate CredentialWord(dl: seq<Byte>) {
    Contains(dl, Admin) || Contains(dl, Root) || Contains(dl, Password)
  }

  /** The port-22 rule as written: `b'ssh' in data_lower or len(data) > 0`. */
  predicate SshProbe(dl: seq<Byte>, data: seq<Byte>, port: int) {
    port == 22 && (Contains(dl, SshWord) || |data| > 0)
  }

  predicate MySqlProbe(dl: seq<Byte>, port: int) {
    port == 3306 && Contains(dl, MySqlWord)
  }

  predicate HttpRequestLine(dl: seq<Byte>) {
    Contains(dl, GetSlash) || Contains(dl, PostSlash)
  }

  /**
   * analyze_attack(data, port). Every verdict pairs its type with that type's
   * fixed severity, and a SQL keyword decides the verdict whatever the port.
   */
  function AnalyzeAttack(data: seq<Byte>, port: int): (r: Verdict)
    ensures r.severity == SeverityOf(r.kind)
    ensures SqlKeyword(Lower(data)) ==> r == Verdict(SqlInjection, High)
  {
    var dl := Lower(data);
    if SqlKeyword(dl) then Verdict(SqlInjection, High)
    else if ScriptMarker(dl) then Verdict(XssAttack, High)
    else if TraversalPattern(dl) then Verdict(DirectoryTraversal, Medium)
    else if CredentialWord(dl) then Verdict(CredentialStuffing, Medium)
    else if SshProbe(dl, data, port) then Verdict(SshScan, Medium)
    else if MySqlProbe(dl, port) then Verdict(MySqlAttack, High)
    else if port == 3389 then Verdict(RdpAttack, High)
    else if HttpRequestLine(dl) then Verdict(HttpRecon, Low)
    else Verdict(PortScan, Low)
  }

  // ---- the decision list as an explicit table ----

  /** One row of the decision list: whether its condition holds, and what it yields. */
  datatype Rule = Rule(fires: bool, verdict: Verdict)

  /** The rows in priority order, evaluated for one payload and port. */
  function Rules(data: seq<Byte>, port: int): (rs: seq<Rule>)
    ensures |rs| == 8
  {
    var dl := Lower(data);
    [ Rule(SqlKeyword(dl), Verdict(SqlInjection, High)),
      Rule(ScriptMarker(dl), Verdict(XssAttack, High)),
      Rule(TraversalPattern(dl), Verdict(DirectoryTraversal, Medium)),
      Rule(CredentialWord(dl), Verdict(CredentialStuffing, Medium)),
      Rule(SshProbe(dl, data, port), Verdict(SshScan, Medium)),
      Rule(MySqlProbe(dl, port), Verdict(MySqlAttack, High)),
      Rule(port == 3389, Verdict(RdpAttack, High)),
      Rule(HttpRequestLine(dl), Verdict(HttpRecon, Low)) ]
  }

  const Fallback := Verdict(PortScan, Low)

  /** The verdict of the first row that fires, or the fallback when none does. */
  function FirstMatch(rules: seq<Rule>, fallback: Verdict): Verdict {
    if rules == [] then fallback
    else if rules[0].fires then rules[0].verdict
    else FirstMatch(rules[1..], fallback)
  }

  /**
   * First match wins: FirstMatch yields row i's verdict where row i is the
   * earliest row that fires, and the fallback exactly when no row fires.
   */
  lemma {:induction false} FirstMatchIndex(rules: seq<Rule>, fallback: Verdict) returns (i: nat)
    ensures i <= |rules|
    ensures forall j :: 0 <= j < i ==> !rules[j].fires
    ensures i < |rules| ==> rules[i].fires && FirstMatch(rules, fallback) == rules[i].verdict
    ensures i == |rules| ==> FirstMatch(rules, fallback) == fallback
  {
    if rules == [] {
      i := 0;
    } else if rules[0].fires {
      i := 0;
    } else {
      var k := FirstMatchIndex(rules[1..], fallback);
      i := k + 1;
      forall j | 0 <= j < i ensures !rules[j].fires {
        if j > 0 {
          assert rules[j] == rules[1..][j - 1];
        }
      }
    }
  }

  /** The if/elif chain and the priority table agree on every payload and port. */
  lemma AnalyzeAttackIsFirstMatch(data: seq<Byte>, port: int)
    ensures AnalyzeAttack(data, port) == FirstMatch(Rules(data, port), Fallback)
  {
    var rs := Rules(data, port);
    var k := FirstMatchIndex(rs, Fallback);
    var dl := Lower(data);
    assert rs[0].fires == SqlKeyword(dl) && rs[1].fires == ScriptMarker(dl);
    assert rs[2].fires == TraversalPattern(dl) && rs[3].fires == CredentialWord(dl);
    assert rs[4].fires == SshProbe(dl, data, port) && rs[5].fires == MySqlProbe(dl, port);
    assert rs[6].fires == (port == 3389) && rs[7].fires == HttpRequestLine(dl);
    assert k >= 1 ==> !rs[0].fires;
    assert k >= 2 ==> !rs[1].fires;
    assert k >= 3 ==> !rs[2].fires;
    assert k >= 4 ==> !rs[3].fires;
    assert k >= 5 ==> !rs[4].fires;
    assert k >= 6 ==> !rs[5].fires;
    assert k >= 7 ==> !rs[6].fires;
    assert k >= 8 ==> !rs[7].fires;
  }

  /**
   * Each verdict, both ways: it is returned exactly when its own condition
   * holds and every earlier condition fails. The port-22 rule's
   * `ssh in data or len(data) > 0` reduces to "the payload is non-empty".
   */
  lemma FirstMatchWins(data: seq<Byte>, port: int)
    ensures var r := AnalyzeAttack(data, port); var dl := Lower(data);
      var kw := SqlKeyword(dl) || ScriptMarker(dl) || TraversalPattern(dl) || CredentialWord(dl);
      && (r.kind == SqlInjection <==> SqlKeyword(dl))
      && (r.kind == XssAttack <==> !SqlKeyword(dl) && ScriptMarker(dl))
      && (r.kind == DirectoryTraversal <==> !SqlKeyword(dl) && !ScriptMarker(dl) && TraversalPattern(dl))
      && (r.kind == CredentialStuffing <==>
            !SqlKeyword(dl) && !ScriptMarker(dl) && !TraversalPattern(dl) && CredentialWord(dl))
      && (r.kind == SshScan <==> !kw && port == 22 && |data| > 0)
      && (r.kind == MySqlAttack <==> !kw && port == 3306 && Contains(dl, MySqlWord))
      && (r.kind == RdpAttack <==> !kw && port == 3389)
      && (r.kind == HttpRecon <==> !kw && port != 22 && !MySqlProbe(dl, port) && port != 3389 && HttpRequestLine(dl))
      && (r.kind == PortScan <==>
            !kw && (port == 22 ==> |data| == 0) && !MySqlProbe(dl, port) && port != 3389 && !HttpRequestLine(dl))
  {
    var dl := Lower(data);
    LowerShape(data);
    if Contains(dl, SshWord) {
      ContainsFirstByte(dl, SshWord);
    }
    if Contains(dl, GetSlash) {
      ContainsFirstByte(dl, GetSlash);
    }
    if Contains(dl, PostSlash) {
      ContainsFirstByte(dl, PostSlash);
    }
  }

  /** The classifier ignores letter case: it sees the same payload once lower-cased. */
  lemma CaseInsensitive(data: seq<Byte>, port: int)
    ensures AnalyzeAttack(Lower(data), port) == AnalyzeAttack(data, port)
  {
    LowerIdempotent(data);
    LowerShape(data);
  }

  /**
   * An empty payload can only be RDP (port 3389) or a port scan; the
   * port-22 rule needs at least one byte.
   */
  lemma EmptyPayload(port: int)
    ensures AnalyzeAttack([], port) == if port == 3389 then Verdict(RdpAttack, High) else Fallback
  {
    assert Lower([]) == [];
  }

  /** A byte that starts one of the searched-for literals once lower-cased. */
  predicate MayStartKeyword(b: Byte) {
    IsUpper(b) || ('a' as int <= b <= 'z' as int) || b == '<' as int || b == '.' as int
  }

  /**
   * A payload without letters, `<` or `.` matches no keyword, so only the
   * port decides: 22 with data is SSH, 3389 is RDP, all else a port scan.
   */
  lemma BinaryPayload(data: seq<Byte>, port: int)
    requires forall i :: 0 <= i < |data| ==> !MayStartKeyword(data[i])
    ensures AnalyzeAttack(data, port) ==
      if port == 22 && |data| > 0 then Verdict(SshScan, Medium)
      else if port == 3389 then Verdict(RdpAttack, High)
      else Fallback
  {
    var dl := Lower(data);
    LowerShape(data);
    assert dl == data;
    MissingFirstByte(dl, Select);
    MissingFirstByte(dl, Union);
    MissingFirstByte(dl, Drop);
    MissingFirstByte(dl, ScriptTag);
    MissingFirstByte(dl, JavascriptUrl);
    MissingFirstByte(dl, DotDotSlash);
    MissingFirstByte(dl, DotDotBackslash);
    MissingFirstByte(dl, Admin);
    MissingFirstByte(dl, Root);
    MissingFirstByte(dl, Password);
    MissingFirstByte(dl, MySqlWord);
    MissingFirstByte(dl, GetSlash);
    MissingFirstByte(dl, PostSlash);
  }

  /** The request `GET /?id=1' UNION SELECT * FROM users-- HTTP/1.1` (written in pieces). */
  const SqlProbeText := "GET /?id=1' UNION SELECT * " + "FROM users-- HTTP/1.1\r\n" + "Host: test.com\r\n\r\n"

  /** That request on port 80 is SQL injection, not HTTP reconnaissance, although it starts with `GET /`. */
  lemma SqlBeatsHttpExample()
    ensures HttpRequestLine(Lower(Ascii(SqlProbeText)))
    ensures AnalyzeAttack(Ascii(SqlProbeText), 80) == Verdict(SqlInjection, High)
  {
    var p := Ascii(SqlProbeText);
    var dl := Lower(p);
    assert SqlProbeText[..5] == "GET /";
    assert p[0] == 'G' as int && p[1] == 'E' as int && p[2] == 'T' as int;
    assert p[3] == ' ' as int && p[4] == '/' as int;
    assert dl[..5] == GetSlash;
    ContainsAt(dl, GetSlash, 0);
    assert SqlProbeText[12..17] == "UNION";
    assert p[12] == 'U' as int && p[13] == 'N' as int && p[14] == 'I' as int;
    assert p[15] == 'O' as int && p[16] == 'N' as int;
    assert dl[12..17] == Union;
    ContainsAt(dl, Union, 12);
  }

  /** The RDP probe bytes 03 00 00 13 0e d0 00 00 on port 3389 are an RDP attack. */
  lemma RdpProbeExample()
    ensures AnalyzeAttack([0x03, 0x00, 0x00, 0x13, 0x0e, 0xd0, 0x00, 0x00], 3389) == Verdict(RdpAttack, High)
  {
    BinaryPayload([0x03, 0x00, 0x00, 0x13, 0x0e, 0xd0, 0x00, 0x00], 3389);
  }
}
