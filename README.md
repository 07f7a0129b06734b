# HoneypotSystem in Dafny

A verified model of the decision and bookkeeping logic of `HoneypotSystem`
in `honeypot.py`. The honeypot listens on twelve TCP ports. For each
connection it does the following:

- reads a payload;
- classifies it with an ordered keyword/port decision list;
- answers with a canned service banner;
- records the event, unless the peer's address is one of the four spellings `127.0.0.1`, `localhost`, `::1`, `0.0.0.0` (the machine's own LAN address, or `127.0.0.2`, is recorded);
- appends the hex of a second read, if one arrives, to the recorded event.

A dashboard serves the most recent events and the counters.

Modules, one per concern:

| file | module | what it holds |
|---|---|---|
| `bytes.dfy` | `Options`, `Bytes` | Payload bytes. ASCII lower-casing (`bytes.lower()`). Substring search (`in` on bytes). Lower-case hex text (`bytes.hex()`) and its inverse. |
| `counter.dfy` | `Counter` | `defaultdict(int)` counters that keep insertion order. Python's stable "sort by count, descending" and its top-n view. |
| `origin.dfy` | `OriginFilter` | `is_local_ip`. |
| `classifier.dfy` | `Classifier` | `analyze_attack`. The attack-type and severity values. The same decision list as an explicit priority table. |
| `responder.dfy` | `Responder` | `create_response` and the banner table. |
| `aggregator.dfy` | `Aggregator` | The recent-events buffer and statistics as values. The in-memory part of `log_attack` (`Record`). `handle_connection` with its reads as parameters (`Handle`). The `get_stats`, `get_attacks` and `get_live` projections. |
| `honeypot.dfy` | `Honeypot` | `class HoneypotSystem`. Its fields are updated in place by `LogAttack` and `HandleConnection`. Each method's `ensures` ties the new fields, through `Snapshot()`, to `Record` and `Handle`. |

Modelling choices:

- **Payloads.** A payload is a `seq<Byte>` with bytes 0..255. Byte literals are built from text with `Ascii`.
- **Lower-casing.** `Lower` moves only A–Z, by 32.
- **Counters.** `ports_scanned` and `protocols` are association lists, not maps. `get_stats` sorts `items()` by count with Python's stable sort, so ties keep dictionary insertion order. A map would lose that order.
- **Timestamp.** The timestamp is an opaque string `now`, supplied by the caller.
- **Socket reads.** The two reads of `handle_connection` are byte sequences. An empty sequence stands for a closed peer, a timeout or a read error. Each of those leaves the same state as a read that returned nothing.

Two behaviours of the code are easy to miss, and the model keeps both:

- **Banner for local peers.** The banner is sent to local peers too. Only the recording is filtered.
- **The stored event is changed later.** The event dictionary already in the buffer is updated in place by the follow-up read.

## Model

| member | source | states |
|---|---|---|
| Bytes.Lower | honeypot.py:86 | `data.lower()`: each byte mapped through AsciiLower (A–Z move by 32, all else kept); its properties are in LowerShape. |
| Bytes.LowerShape | honeypot.py:86 | Lower-casing keeps the length, turns each A–Z byte into its lower-case letter (+32), keeps every other byte, and leaves no A–Z byte. |
| Bytes.LowerIdempotent | honeypot.py:86 | Lower-casing an already lower-cased payload changes nothing. |
| Bytes.Contains | honeypot.py:88-104 | Python's `needle in hay` on bytes, as a scan from the front; ContainsIff gives its window form. |
| Bytes.ContainsIff | honeypot.py:88-104 | `needle in hay` holds exactly when some window of `hay` equals `needle`. |
| Bytes.ContainsAt | honeypot.py:88-104 | A matching window at any offset makes `needle in hay` true. |
| Bytes.MissingFirstByte | honeypot.py:88-104 | A payload that lacks a keyword's first byte does not contain the keyword. |
| Bytes.Hex | honeypot.py:138 | `data.hex()`: two lower-case hex digits per byte, high nibble first, so the text is twice as long as the payload; UnhexHex and HexUnhex pin it to its inverse. |
| Bytes.HexDigitsOnly | honeypot.py:138 | `data.hex()` uses only the digits 0-9 and a-f, so it never contains a newline. |
| Bytes.UnhexHex | honeypot.py:138 | Decoding the hex text of a payload gives the payload back. |
| Bytes.HexUnhex | honeypot.py:138 | Every decodable text is the hex of what it decodes to. |
| Bytes.HexInjective | honeypot.py:138 | Distinct payloads get distinct hex texts. |
| Counter.Get | honeypot.py:78-79 | Reading a `defaultdict(int)`: the count stored for a key, 0 when the key is absent. |
| Counter.Bump | honeypot.py:78-79 | `d[k] += 1`: raise the entry of `k` in place, or append `(k, 1)`; BumpGet, BumpTotal, BumpKeys and BumpValid state its effect. |
| Counter.BumpGet | honeypot.py:78-79 | `d[k] += 1` raises the count of `k` by one and leaves every other count unchanged. |
| Counter.BumpTotal | honeypot.py:76-79 | One increment adds exactly one to the sum of all counts. |
| Counter.BumpKeys | honeypot.py:78-79 | A key already present keeps its position, and a new key goes last (dictionary insertion order). |
| Counter.GetPositive | honeypot.py:78-79 | A key is present exactly when its count is positive. |
| Counter.BumpValid | honeypot.py:78-79 | Incrementing keeps keys distinct and counts positive. |
| Counter.SortByCount | honeypot.py:233-236 | `sorted(items, key=count, reverse=True)` as an insertion sort that puts an entry ahead of equal counts met later; SortByCountSpec states it is descending, a permutation and stable. |
| Counter.SortByCountSpec | honeypot.py:233-236 | The sort by count, largest first, is descending and a permutation. It is also stable: entries with equal counts keep their dictionary order. |
| Counter.TopByCount | honeypot.py:233-237 | `sorted(...)[:n]` is exactly the first min(n, size) entries of the stable sort SortByCount: entries of the counter, none kept more often than it occurs, largest first. No entry left out has a larger count than an entry kept. |
| OriginFilter.IsLocalIp | honeypot.py:36-41 | An address is local exactly when it is one of `127.0.0.1`, `localhost`, `::1`, `0.0.0.0`. |
| OriginFilter.OnlyExactSpellingsAreLocal | honeypot.py:36-41 | These count as real traffic: LAN and public addresses, other loopback addresses, IPv4-mapped loopback, upper-case `LOCALHOST`, and long-form `::1`. |
| Classifier.TypeLabel | honeypot.py:89-105 | The attack-type strings the source returns, one per AttackType, character for character. |
| Classifier.SeverityLabel | honeypot.py:89-105 | The severity strings `LOW`, `MEDIUM`, `HIGH`. |
| Classifier.TypeLabelInjective | honeypot.py:88-105 | The nine attack-type labels are pairwise distinct. |
| Classifier.AnalyzeAttack | honeypot.py:84-105 | Every verdict pairs its type with that type's fixed severity. A SQL keyword anywhere in the lower-cased payload gives (SQL Injection, HIGH) on every port. |
| Classifier.FirstMatchIndex | honeypot.py:88-105 | The result of a priority table is the verdict of its earliest row that fires. It is the fallback exactly when no row fires. |
| Classifier.AnalyzeAttackIsFirstMatch | honeypot.py:88-105 | The if/elif chain equals the first match over its eight rows in source order, with (Port Scanning, LOW) as the fallback. |
| Classifier.FirstMatchWins | honeypot.py:88-105 | For each of the nine types, both directions: the type is returned exactly when its own condition holds and every earlier condition fails. On port 22 the SSH rule reduces to "payload non-empty". |
| Classifier.CaseInsensitive | honeypot.py:86 | Classifying a payload and classifying its lower-cased form give the same verdict. |
| Classifier.EmptyPayload | honeypot.py:96-105 | An empty payload is (RDP Attack, HIGH) on port 3389 and (Port Scanning, LOW) on every other port. |
| Classifier.BinaryPayload | honeypot.py:96-105 | If no keyword rule matches, only the port decides: 22 with data gives SSH, 3389 gives RDP, and every other port gives Port Scanning. This is shown for payloads without letters, `<` or `.`. |
| Classifier.SqlBeatsHttpExample | honeypot.py:88-89 | `GET /?id=1' UNION SELECT * FROM users-- ...` on port 80 is a request line, yet it is classified as SQL Injection. |
| Classifier.RdpProbeExample | honeypot.py:100-101 | The RDP connection-request bytes on port 3389 give (RDP Attack, HIGH). |
| Responder.CreateResponse | honeypot.py:107-123 | A monitored port gets its configured banner, which is non-empty. Any other port gets the empty reply. |
| Responder.ResponseIgnoresProtocol | honeypot.py:107-123 | The reply does not depend on the protocol argument. |
| Responder.MonitoredPorts | honeypot.py:109-122 | Twelve distinct ports are listened on, and they are exactly the keys of the banner table. |
| Aggregator.Record | honeypot.py:43-79 | The in-memory part of `log_attack` on values: local event, no change; else insert at 0, pop past 100, and bump the total, address set, port and protocol counters. RecordEffect states the effect field by field. |
| Aggregator.InitialConsistent | honeypot.py:20-28 | The empty buffer and zero counters satisfy the bookkeeping invariant. |
| Aggregator.RecordEffect | honeypot.py:43-79 | A local event changes nothing. Otherwise: the event is first; the old buffer follows, cut so the length is min(old+1, 100); the total grows by one; the address joins the set; exactly the event's port and protocol counts grow by one, and no other count changes. |
| Aggregator.RecordConsistent | honeypot.py:70-79 | `log_attack` keeps the invariant. Both counters sum to the total. Every buffered event is counted. No local address is counted. The buffer holds at most 100 events and at most the total. |
| Aggregator.History | honeypot.py:70-79 | After any sequence of calls from a fresh state: the buffer is the newest 100 non-local events, newest first; the total and each port and protocol count are counts over the non-local events; the address set is exactly their addresses. |
| Aggregator.RecordAllConsistent | honeypot.py:70-79 | The invariant holds after every sequence of `log_attack` calls. |
| Aggregator.OldestEvicted | honeypot.py:71-73 | After 101 distinct non-local events the buffer holds 100 entries, the first event is gone, and the newest is in front. |
| Aggregator.KeptAllRemote | honeypot.py:45-48 | If no event is local, every event is recorded. |
| Aggregator.Arrival | honeypot.py:131-141 | The event built from the first read has the connection's address, port, protocol and timestamp. Its (type, severity) pair is exactly `analyze_attack(data, port)`, so its severity is its type's and a SQL keyword makes it SQL Injection. Its data decodes back to the payload. |
| Aggregator.FollowUp | honeypot.py:151-155 | The follow-up read: when a banner was sent, more data came and the event was stored, the stored (front) event's data gets a newline and the new hex appended; otherwise nothing changes. |
| Aggregator.Handle | honeypot.py:125-157 | `handle_connection` on values: no data, nothing; else build the event, `log_attack` it, send the port's banner, apply the follow-up read. HandleSpec states the result. |
| Aggregator.HandleSpec | honeypot.py:125-157 | An empty first read sends nothing and changes nothing. Otherwise the port's banner is sent, whether or not the peer is local. The state is `log_attack` of one event whose data is the first read's hex. When a banner went out and a second read brought data, that data is hex(first) + newline + hex(second). |
| Aggregator.HandleConsistent | honeypot.py:125-157 | A connection keeps the bookkeeping invariant. |
| Aggregator.RecordRewrite | honeypot.py:155 | Extending the data of the event just stored gives the same state as storing the extended event in the first place. |
| Aggregator.JoinedDataDecodes | honeypot.py:155 | The joined data has its first newline right after the first read's hex. Both halves decode back to the two reads. |
| Aggregator.GetStats | honeypot.py:227-240 | The stats view gives: the total; the number of distinct addresses; the top five ports, exactly the first five entries of the stable sort by count (each kept once, largest first, none left out counting more); the protocol counts; the first 20 events of the buffer. |
| Aggregator.GetAttacks | honeypot.py:242-245 | The attacks view is the first min(50, size) events of the buffer, in order. |
| Aggregator.GetLive | honeypot.py:247-254 | The live view gives: the newest event, or none exactly when the buffer is empty; the total; 12 monitored ports. |
| Aggregator.LatestIsNewestKept | honeypot.py:251 | After a run, the live view shows the last non-local event, or none if there was none. |
| Honeypot.HoneypotSystem.constructor | honeypot.py:20-34 | A fresh object has an empty buffer, zero counters, and satisfies the invariant. |
| Honeypot.HoneypotSystem.LogAttack | honeypot.py:43-79 | The in-place `insert(0, ...)`, `pop()` and counter updates leave the fields equal to `Record` of the old fields and the time-stamped event. The invariant is preserved. |
| Honeypot.HoneypotSystem.HandleConnection | honeypot.py:125-164 | The in-place updates, including the follow-up append to the stored event's data, give exactly the state and reply of `Handle`. The invariant is preserved. |

## Left out

- Sockets are not modelled: bind, listen, accept, the 5-second timeout, send, close. The two `recv(4096)` calls become parameters. The model does not bound a read at 4096 bytes.
- Listener threads (`start_listener`, `start_all_listeners`), the `running` flag and `time.sleep` are not modelled. Every operation is sequential. The source takes no lock around `log_attack`.
- HandleConnection updates the front of the buffer for the follow-up read. In the source the update goes to the very dictionary that was stored, wherever it now sits. The two agree when no other connection is logged in between, which always holds sequentially. The concurrent case, and the aliasing behind it, is not captured.
- The log file is not modelled: its name, the `log_entry` text with its `[:200]` cut of the data, and the write. A failing write is not modelled either; it would abort `log_attack` before the in-memory update, and the connection before the banner. `print` output is left out too.
- `datetime.now()` becomes the string parameter `now`. Its format is not modelled.
- The exception handlers of `handle_connection` are not modelled. An error in either read counts as an empty read.
- Flask routes, `render_template`, and `jsonify`'s JSON encoding are not modelled, including whatever key order the encoder emits. The views are modelled as the Python values they serialise.
- The `countries` counter and the `active_connections` list are left out; no code path updates them.
- `test_honeypot.py` is a network client without logic of its own. It is not part of this model. Two of its payloads appear as `SqlBeatsHttpExample` and `RdpProbeExample`.
- The banner bytes are modelled exactly, but no lemma describes their shape (for example, which banners are HTTP status lines).
