/**
 * The in-memory bookkeeping of HoneypotSystem, as values: the recent-events
 * buffer (newest first, at most 100 entries) and the statistics counters;
 * what log_attack does to them; what one connection does to them; and the
 * read-only views the dashboard serves.
 */
module Aggregator {
  import opened Options
  import opened Bytes
  import opened Counter
  import opened Classifier
  import opened OriginFilter
  import opened Responder

  /** One recorded connection: the `attack_data` dictionary. */
  datatype Event = Event(
    ip: string,
    port: int,
    protocol: string,
    data: string,
    attackType: AttackType,
    severity: Severity,
    timestamp: string)

  /** The buffer keeps the last 100 attacks. */
  const MaxAttacks: nat := 100

  /** `self.stats`, less the never-updated `countries` counter. */
  datatype Stats = Stats(
    totalAttempts: nat,
    uniqueIps: set<string>,
    portsScanned: Counter<int>,
    protocols: Counter<string>)

  /** `self.attacks` together with `self.stats`. */
  datatype State = State(attacks: seq<Event>, stats: Stats)

  /** The state of a freshly constructed HoneypotSystem. */
  const Initial := State([], Stats(0, {}, [], []))

  /**
   * The in-memory part of log_attack: a local event changes nothing; any
   * other event goes to the front of the buffer, the last entry is popped
   * once there are more than 100, and the counters are bumped.
   */
  function Record(s: State, e: Event): State {
    if IsLocalIp(e.ip) then s
    else
      var buffer := [e] + s.attacks;
      State(
        if |buffer| > MaxAttacks then buffer[..|buffer| - 1] else buffer,
        Stats(
          s.stats.totalAttempts + 1,
          s.stats.uniqueIps + {e.ip},
          Bump(s.stats.portsScanned, e.port),
          Bump(s.stats.protocols, e.protocol)))
  }

  /**
   * The counters agree with each other and with the buffer: both per-key
   * counters sum to the total, every buffered event's address, port and
   * protocol have been counted, no local address was ever counted, and the
   * buffer holds at most 100 and at most as many events as were counted.
   */
  ghost predicate Consistent(s: State) {
    && |s.attacks| <= MaxAttacks
    && |s.attacks| <= s.stats.totalAttempts
    && |s.stats.uniqueIps| <= s.stats.totalAttempts
    && Valid(s.stats.portsScanned) && Valid(s.stats.protocols)
    && Total(s.stats.portsScanned) == s.stats.totalAttempts
    && Total(s.stats.protocols) == s.stats.totalAttempts
    && (forall ip :: ip in s.stats.uniqueIps ==> !IsLocalIp(ip))
    && (forall e :: e in s.attacks ==>
          && !IsLocalIp(e.ip)
          && e.ip in s.stats.uniqueIps
          && Get(s.stats.portsScanned, e.port) > 0
          && Get(s.stats.protocols, e.protocol) > 0)
  }

  lemma InitialConsistent()
    ensures Consistent(Initial)
  {
  }

  /**
   * What log_attack does, field by field. A local event leaves everything
   * unchanged. Otherwise the event is first, the old buffer follows cut so
   * that the length is min(old + 1, 100), the total grows by exactly one,
   * the address joins the set, and exactly the event's port and protocol
   * counts grow by one.
   */
  lemma {:induction false} RecordEffect(s: State, e: Event)
    requires |s.attacks| <= MaxAttacks
    ensures IsLocalIp(e.ip) ==> Record(s, e) == s
    ensures !IsLocalIp(e.ip) ==>
      var t := Record(s, e);
      var n := if |s.attacks| < MaxAttacks then |s.attacks| + 1 else MaxAttacks;
      && |t.attacks| == n
      && t.attacks[0] == e
      && t.attacks[1..] == s.attacks[..n - 1]
      && t.stats.totalAttempts == s.stats.totalAttempts + 1
      && t.stats.uniqueIps == s.stats.uniqueIps + {e.ip}
      && (forall p :: Get(t.stats.portsScanned, p) == Get(s.stats.portsScanned, p) + (if p == e.port then 1 else 0))
      && (forall q :: Get(t.stats.protocols, q) == Get(s.stats.protocols, q) + (if q == e.protocol then 1 else 0))
  {
    if !IsLocalIp(e.ip) {
      forall p {
        BumpGet(s.stats.portsScanned, e.port, p);
      }
      forall q {
        BumpGet(s.stats.protocols, e.protocol, q);
      }
    }
  }

  /** log_attack keeps the counters and the buffer consistent. */
  lemma RecordConsistent(s: State, e: Event)
    requires Consistent(s)
    ensures Consistent(Record(s, e))
  {
    if !IsLocalIp(e.ip) {
      var t := Record(s, e);
      RecordEffect(s, e);
      BumpValid(s.stats.portsScanned, e.port);
      BumpValid(s.stats.protocols, e.protocol);
      BumpTotal(s.stats.portsScanned, e.port);
      BumpTotal(s.stats.protocols, e.protocol);
      assert |s.stats.uniqueIps + {e.ip}| <= |s.stats.uniqueIps| + 1;
      forall x | x in t.attacks
        ensures Get(t.stats.portsScanned, x.port) > 0 && Get(t.stats.protocols, x.protocol) > 0
      {
        if x != e {
          assert x in t.attacks[1..];
          assert x in s.attacks;
        }
      }
    }
  }

  // ---- a run of many log_attack calls ----

  /** log_attack applied to each event of `es` in turn, oldest first. */
  function RecordAll(s: State, es: seq<Event>): State {
    if es == [] then s else Record(RecordAll(s, es[..|es| - 1]), es[|es| - 1])
  }

  /** The events of `es` that pass the origin filter, oldest first. */
  function Kept(es: seq<Event>): seq<Event> {
    if es == [] then []
    else Kept(es[..|es| - 1]) + (if IsLocalIp(es[|es| - 1].ip) then [] else [es[|es| - 1]])
  }

  function Reverse<T>(s: seq<T>): (r: seq<T>)
    ensures |r| == |s|
  {
    if s == [] then [] else [s[|s| - 1]] + Reverse(s[..|s| - 1])
  }

  /** Python's `s[:n]`: the first n elements, or all of them if there are fewer. */
  function Take<T>(s: seq<T>, n: nat): (r: seq<T>)
    ensures |r| == if |s| < n then |s| else n
    ensures forall i :: 0 <= i < |r| ==> r[i] == s[i]
  {
    if |s| < n then s else s[..n]
  }

  /** The addresses of the events. */
  function IpsOf(es: seq<Event>): set<string> {
    if es == [] then {} else IpsOf(es[..|es| - 1]) + {es[|es| - 1].ip}
  }

  /** How many of the events arrived on port `p`. */
  function PortHits(es: seq<Event>, p: int): nat {
    if es == [] then 0 else PortHits(es[..|es| - 1], p) + (if es[|es| - 1].port == p then 1 else 0)
  }

  /** How many of the events used protocol `q`. */
  function ProtocolHits(es: seq<Event>, q: string): nat {
    if es == [] then 0 else ProtocolHits(es[..|es| - 1], q) + (if es[|es| - 1].protocol == q then 1 else 0)
  }

  /**
   * After any sequence of log_attack calls on a fresh honeypot, the buffer
   * holds the newest 100 non-local events, newest first; the total counts
   * every non-local event; the address set is exactly their addresses; and
   * each port and protocol count is the number of non-local events on it.
   */
  lemma {:induction false} History(es: seq<Event>)
    ensures var t := RecordAll(Initial, es);
      && t.attacks == Take(Reverse(Kept(es)), MaxAttacks)
      && t.stats.totalAttempts == |Kept(es)|
      && t.stats.uniqueIps == IpsOf(Kept(es))
      && (forall p :: Get(t.stats.portsScanned, p) == PortHits(Kept(es), p))
      && (forall q :: Get(t.stats.protocols, q) == ProtocolHits(Kept(es), q))
  {
    if es != [] {
      var prefix, e := es[..|es| - 1], es[|es| - 1];
      History(prefix);
      var s := RecordAll(Initial, prefix);
      var k := Kept(prefix);
      assert |s.attacks| <= MaxAttacks;
      if !IsLocalIp(e.ip) {
        RecordEffect(s, e);
        assert Kept(es) == k + [e];
        assert (k + [e])[..|k + [e]| - 1] == k;
        var r := Reverse(k + [e]);
        assert r == [e] + Reverse(k);
        var t := RecordAll(Initial, es);
        assert t == Record(s, e);
        var n := if |s.attacks| < MaxAttacks then |s.attacks| + 1 else MaxAttacks;
        assert t.attacks == [e] + s.attacks[..n - 1];
        assert Take(r, MaxAttacks) == [e] + Take(Reverse(k), MaxAttacks)[..n - 1];
      } else {
        assert Kept(es) == k;
      }
    }
  }

  /** Every prefix of a run is consistent. */
  lemma {:induction false} RecordAllConsistent(es: seq<Event>)
    ensures Consistent(RecordAll(Initial, es))
  {
    if es == [] {
      InitialConsistent();
    } else {
      RecordAllConsistent(es[..|es| - 1]);
      RecordConsistent(RecordAll(Initial, es[..|es| - 1]), es[|es| - 1]);
    }
  }

  /**
   * Eviction: after 101 distinct non-local events, the buffer holds 100
   * and the first event is gone; the newest is at the front.
   */
  lemma OldestEvicted(es: seq<Event>)
    requires |es| == MaxAttacks + 1
    requires forall i :: 0 <= i < |es| ==> !IsLocalIp(es[i].ip)
    requires es[0] !in es[1..]
    ensures |RecordAll(Initial, es).attacks| == MaxAttacks
    ensures es[0] !in RecordAll(Initial, es).attacks
    ensures RecordAll(Initial, es).attacks[0] == es[|es| - 1]
  {
    History(es);
    KeptAllRemote(es);
    var r := Reverse(es);
    ReverseAt(es);
    var t := RecordAll(Initial, es).attacks;
    assert t == r[..MaxAttacks];
    forall i | 0 <= i < MaxAttacks ensures t[i] != es[0] {
      assert t[i] == es[|es| - 1 - i];
      assert es[|es| - 1 - i] == es[1..][|es| - 2 - i];
    }
  }

  /** When no event is local, every event is kept. */
  lemma {:induction false} KeptAllRemote(es: seq<Event>)
    requires forall i :: 0 <= i < |es| ==> !IsLocalIp(es[i].ip)
    ensures Kept(es) == es
  {
    if es != [] {
      KeptAllRemote(es[..|es| - 1]);
      assert es == es[..|es| - 1] + [es[|es| - 1]];
    }
  }

  /** Reverse puts element i at position |s| - 1 - i. */
  lemma {:induction false} ReverseAt<T>(s: seq<T>)
    ensures forall i :: 0 <= i < |s| ==> Reverse(s)[i] == s[|s| - 1 - i]
  {
    if s != [] {
      ReverseAt(s[..|s| - 1]);
    }
  }

  // ---- one connection ----

  /** The event's data after a follow-up read: `hex(first) + "\n" + hex(second)`. */
  function JoinedData(first: seq<Byte>, second: seq<Byte>): string {
    Hex(first) + "\n" + Hex(second)
  }

  /** The `attack_data` dictionary built from the first read of a connection. */
  function Arrival(ip: string, port: int, protocol: string, first: seq<Byte>, now: string): (e: Event)
    ensures e.ip == ip && e.port == port && e.protocol == protocol && e.timestamp == now
    ensures Unhex(e.data) == Some(first)
    ensures Verdict(e.attackType, e.severity) == AnalyzeAttack(first, port)
    ensures e.severity == SeverityOf(e.attackType)
    ensures SqlKeyword(Lower(first)) ==> e.attackType == SqlInjection
  {
    UnhexHex(first);
    var v := AnalyzeAttack(first, port);
    Event(ip, port, protocol, Hex(first), v.kind, v.severity, now)
  }

  /**
   * The follow-up read: when a banner went out and more data came, the
   * data of the dictionary log_attack stored (if it stored it) gets a
   * newline and the hex of the new bytes appended. Sequentially that
   * dictionary is still the front of the buffer.
   */
  function FollowUp(t: State, stored: bool, response: seq<Byte>, second: seq<Byte>): State
    requires stored ==> |t.attacks| > 0
  {
    if |response| == 0 || |second| == 0 || !stored then t
    else
      var front := t.attacks[0];
      t.(attacks := t.attacks[0 := front.(data := front.data + "\n" + Hex(second))])
  }

  /**
   * handle_connection with its socket reads given as byte sequences (an
   * empty read stands for a timeout, an error or a closed peer). It returns
   * the new state and the bytes sent back. Nothing happens without data.
   * Otherwise the payload is classified, the event goes to log_attack, the
   * banner of the port goes out (local peer or not), and the follow-up
   * read may extend the stored event.
   */
  function Handle(s: State, ip: string, port: int, protocol: string,
                  first: seq<Byte>, second: seq<Byte>, now: string): (State, seq<Byte>)
  {
    if |first| == 0 then (s, [])
    else
      var e := Arrival(ip, port, protocol, first, now);
      var response := CreateResponse(port, protocol);
      (FollowUp(Record(s, e), !IsLocalIp(ip), response, second), response)
  }

  /**
   * One connection, end to end. Without data nothing is recorded and
   * nothing sent. With data the banner of the port is sent, to local and
   * remote peers alike, and the state is exactly what log_attack makes of
   * one event: the peer, port and protocol, the classifier's type and
   * severity, and as data the hex of the first read, joined by a newline to
   * the hex of the follow-up read when a banner went out and more data
   * came. RecordEffect says what that does to the buffer and counters;
   * a local peer leaves the state as it was.
   */
  lemma HandleSpec(s: State, ip: string, port: int, protocol: string,
                   first: seq<Byte>, second: seq<Byte>, now: string)
    ensures Handle(s, ip, port, protocol, first, second, now).1 ==
            if |first| > 0 then CreateResponse(port, protocol) else []
    ensures Handle(s, ip, port, protocol, first, second, now).0 ==
            if |first| == 0 then s
            else if port in Ports && |second| > 0
            then Record(s, Arrival(ip, port, protocol, first, now).(data := JoinedData(first, second)))
            else Record(s, Arrival(ip, port, protocol, first, now))
  {
    if |first| > 0 && !IsLocalIp(ip) && port in Ports && |second| > 0 {
      RecordRewrite(s, Arrival(ip, port, protocol, first, now), JoinedData(first, second));
    }
  }

  /** A connection keeps the state consistent. */
  lemma HandleConsistent(s: State, ip: string, port: int, protocol: string,
                         first: seq<Byte>, second: seq<Byte>, now: string)
    requires Consistent(s)
    ensures Consistent(Handle(s, ip, port, protocol, first, second, now).0)
  {
    HandleSpec(s, ip, port, protocol, first, second, now);
    if |first| > 0 {
      var e := Arrival(ip, port, protocol, first, now);
      RecordConsistent(s, e);
      RecordConsistent(s, e.(data := JoinedData(first, second)));
    }
  }

  /** Rewriting the data of the event just stored is the same as storing the rewritten event. */
  lemma RecordRewrite(s: State, e: Event, d: string)
    requires !IsLocalIp(e.ip)
    ensures var t := Record(s, e);
      |t.attacks| > 0 && t.(attacks := t.attacks[0 := e.(data := d)]) == Record(s, e.(data := d))
  {
    var e' := e.(data := d);
    var t, t' := Record(s, e), Record(s, e');
    assert t.stats == t'.stats;
    assert t.attacks[0 := e'] == t'.attacks;
  }

  /** The joined data splits back into the two reads: hex never contains a newline. */
  lemma JoinedDataDecodes(first: seq<Byte>, second: seq<Byte>)
    ensures var d := JoinedData(first, second);
      && d[2 * |first|] == '\n'
      && '\n' !in d[..2 * |first|]
      && Unhex(d[..2 * |first|]) == Some(first)
      && Unhex(d[2 * |first| + 1..]) == Some(second)
  {
    var d := JoinedData(first, second);
    assert d[..2 * |first|] == Hex(first);
    assert d[2 * |first| + 1..] == Hex(second);
    HexDigitsOnly(first);
    UnhexHex(first);
    UnhexHex(second);
  }

  // ---- the dashboard views ----

  /** The `/api/stats` payload. */
  datatype StatsView = StatsView(
    totalAttempts: nat,
    uniqueIps: nat,
    topPorts: Counter<int>,
    protocols: Counter<string>,
    recentAttacks: seq<Event>)

  /**
   * get_stats: the total, the number of distinct addresses, the five most
   * hit ports (largest count first, ties in first-hit order), the protocol
   * counts, and the 20 newest events.
   */
  function GetStats(s: State): (v: StatsView)
    ensures v.totalAttempts == s.stats.totalAttempts && v.uniqueIps == |s.stats.uniqueIps|
    ensures |v.topPorts| == if |s.stats.portsScanned| < 5 then |s.stats.portsScanned| else 5
    ensures DescendingByCount(v.topPorts)
    ensures forall i :: 0 <= i < |v.topPorts| ==> v.topPorts[i] in s.stats.portsScanned
    ensures forall x, i :: x in s.stats.portsScanned && x !in v.topPorts && 0 <= i < |v.topPorts| ==>
                           x.1 <= v.topPorts[i].1
    ensures multiset(v.topPorts) <= multiset(s.stats.portsScanned)
    ensures |v.topPorts| <= |SortByCount(s.stats.portsScanned)|
            && v.topPorts == SortByCount(s.stats.portsScanned)[..|v.topPorts|]
    ensures v.protocols == s.stats.protocols
    ensures |v.recentAttacks| == if |s.attacks| < 20 then |s.attacks| else 20
    ensures forall i :: 0 <= i < |v.recentAttacks| ==> v.recentAttacks[i] == s.attacks[i]
  {
    StatsView(
      s.stats.totalAttempts,
      |s.stats.uniqueIps|,
      TopByCount(s.stats.portsScanned, 5),
      s.stats.protocols,
      Take(s.attacks, 20))
  }

  /** get_attacks: the 50 newest events, newest first. */
  function GetAttacks(s: State): (r: seq<Event>)
    ensures |r| == if |s.attacks| < 50 then |s.attacks| else 50
    ensures forall i :: 0 <= i < |r| ==> r[i] == s.attacks[i]
  {
    Take(s.attacks, 50)
  }

  /** The `/api/live` payload. */
  datatype LiveView = LiveView(latestAttack: Option<Event>, totalAttempts: nat, activeMonitoring: nat)

  /** get_live: the newest event if there is one, the total, and the number of monitored ports. */
  function GetLive(s: State): (v: LiveView)
    ensures v.latestAttack.None? <==> s.attacks == []
    ensures v.latestAttack.Some? ==> v.latestAttack.value == s.attacks[0]
    ensures v.totalAttempts == s.stats.totalAttempts
    ensures v.activeMonitoring == 12
  {
    LiveView(if s.attacks == [] then None else Some(s.attacks[0]), s.stats.totalAttempts, |Ports|)
  }

  /** After a run, the live view shows the newest non-local event, or nothing if there was none. */
  lemma LatestIsNewestKept(es: seq<Event>)
    ensures var k := Kept(es);
      GetLive(RecordAll(Initial, es)).latestAttack == if k == [] then None else Some(k[|k| - 1])
  {
    History(es);
    ReverseAt(Kept(es));
  }
}
