/**
 * HoneypotSystem as the object it is: the recent-events buffer and the
 * statistics are fields that log_attack and handle_connection update in
 * place. Each method is specified by the value-level functions of the
 * Aggregator module, through Snapshot().
 */
module Honeypot {
  import opened Bytes
  import opened Counter
  import opened Classifier
  import opened OriginFilter
  import opened Responder
  import opened Aggregator

  class HoneypotSystem {
    /** `self.attacks`, newest first. */
    var attacks: seq<Event>
    /** The fields of `self.stats`. */
    var totalAttempts: nat
    var uniqueIps: set<string>
    var portsScanned: Counter<int>
    var protocols: Counter<string>

    /** The fields as one value. */
    function Snapshot(): State
      reads this
    {
      State(attacks, Stats(totalAttempts, uniqueIps, portsScanned, protocols))
    }

    /** The object invariant: the buffer and the counters agree. */
    ghost predicate Valid()
      reads this
    {
      Consistent(Snapshot())
    }

    /** A fresh honeypot: nothing recorded, nothing counted. */
    constructor()
      ensures Snapshot() == Initial
      ensures Valid()
    {
      attacks := [];
      totalAttempts := 0;
      uniqueIps := {};
      portsScanned := [];
      protocols := [];
      InitialConsistent();
    }

    /**
     * log_attack, less the file and the console: local traffic is dropped;
     * otherwise the event, stamped with `now`, goes to the front of the
     * buffer, the oldest entry is popped past 100, and the counters grow.
     */
    method LogAttack(e: Event, now: string)
      requires Valid()
      modifies this
      ensures Valid()
      ensures Snapshot() == Record(old(Snapshot()), e.(timestamp := now))
    {
      ghost var before := Snapshot();
      if IsLocalIp(e.ip) {
        return;
      }
      var entry := e.(timestamp := now);
      attacks := [entry] + attacks;
      if |attacks| > MaxAttacks {
        attacks := attacks[..|attacks| - 1];
      }
      totalAttempts := totalAttempts + 1;
      uniqueIps := uniqueIps + {e.ip};
      portsScanned := Bump(portsScanned, e.port);
      protocols := Bump(protocols, e.protocol);
      RecordConsistent(before, entry);
    }

    /**
     * handle_connection on one accepted socket, with the two reads given as
     * byte sequences (empty for a timeout, an error or a closed peer);
     * returns what was sent back. The follow-up read updates the data of
     * the dictionary log_attack stored, which is the front of the buffer.
     */
    method HandleConnection(ip: string, port: int, protocol: string,
                            first: seq<Byte>, second: seq<Byte>, now: string)
      returns (sent: seq<Byte>)
      requires Valid()
      modifies this
      ensures Valid()
      ensures (Snapshot(), sent) == Handle(old(Snapshot()), ip, port, protocol, first, second, now)
    {
      ghost var before := Snapshot();
      sent := [];
      if |first| == 0 {
        return;
      }
      var verdict := AnalyzeAttack(first, port);
      var attackData := Event(ip, port, protocol, Hex(first), verdict.kind, verdict.severity, "");
      LogAttack(attackData, now);
      assert attackData.(timestamp := now) == Arrival(ip, port, protocol, first, now);
      var response := CreateResponse(port, protocol);
      if |response| > 0 {
        sent := response;
        if |second| > 0 && !IsLocalIp(ip) {
          var front := attacks[0];
          attacks := attacks[0 := front.(data := front.data + "\n" + Hex(second))];
        }
      }
      HandleConsistent(before, ip, port, protocol, first, second, now);
    }
  }
}
