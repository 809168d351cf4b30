/** `HttpClient::OperationDelayManager`: per-(operation, host) spacing of
    requests. The configuration is normalised once; each request then asks
    for the wait before it may start and records its start time. The mutex
    and `sleep` are left to the caller: the step returns the wait. */
module DelayManager {
  import opened Wrappers
  import opened Assoc
  import opened Strings
  import opened Numbers
  import opened HttpTypes

  /** A Hash key as configured: a String or a Symbol; `to_s` gives its text. */
  datatype Key = Str(s: string) | Sym(name: string) {
    function ToS(): string {
      match this
      case Str(s) => s
      case Sym(n) => n
    }
  }

  /** The per-host delays of one operation; delays are already `to_f`'d. */
  datatype Hosts = HostsHash(entries: seq<(Key, real)>) | HostsNotAHash

  /** `host_operation_delays:` as given; `nil` and every non-Hash are `NotAHash`. */
  datatype Config = ConfigHash(entries: seq<(Key, Hosts)>) | NotAHash

  /** The normalised table: operation -> lower-case host -> positive delay. */
  type Delays = Assoc<string, Assoc<string, real>>

  /** `delays.dig(operation, host)`. */
  function DelayFor(delays: Delays, op: string, host: string): Option<real> {
    match Get(delays, op)
    case None => None
    case Some(hosts) => Get(hosts, host)
  }

  /** A host entry is kept when its delay is positive and its lower-cased name is not empty. */
  predicate KeptHost(entry: (Key, real)) {
    entry.1 > 0.0 && Lower(entry.0.ToS()) != []
  }

  /** The inner loop of `normalize_operation_host_delays`. */
  function NormalizeHosts(acc: Assoc<string, real>, hs: seq<(Key, real)>): (r: Assoc<string, real>)
    ensures forall h :: 0 <= h < |acc| && acc[h].1 > 0.0 && acc[h].0 != [] ==> Get(r, acc[h].0).Some?
    decreases |hs|
  {
    if |hs| == 0 then acc
    else
      var prev := NormalizeHosts(acc, hs[..|hs| - 1]);
      var last := hs[|hs| - 1];
      PutKeeps(prev, Lower(last.0.ToS()), last.1);
      if KeptHost(last) then Put(prev, Lower(last.0.ToS()), last.1) else prev
  }

  lemma PutKeeps<V>(a: Assoc<string, V>, k: string, v: V)
    ensures forall k' :: Get(a, k').Some? ==> Get(Put(a, k, v), k').Some?
  {
    forall k' | Get(a, k').Some? ensures Get(Put(a, k, v), k').Some? {
      if k' == k { GetPut(a, k, v); } else { GetPutOther(a, k, v, k'); }
    }
  }

  /** `normalize_operation_host_delays`. Operations whose hosts are not a Hash
      are skipped; the others get an entry (possibly empty) under `to_s`. */
  function Normalize(config: Config): (r: Delays)
    ensures config.NotAHash? ==> r == []
  {
    match config
    case NotAHash => []
    case ConfigHash(es) => NormalizeOps(es)
  }

  function NormalizeOps(es: seq<(Key, Hosts)>): (r: Delays)
    decreases |es|
  {
    if |es| == 0 then []
    else
      var prev := NormalizeOps(es[..|es| - 1]);
      var (op, hosts) := es[|es| - 1];
      match hosts
      case HostsNotAHash => prev
      case HostsHash(hs) =>
        var inner := Get(prev, op.ToS()).GetOr([]);
        Put(prev, op.ToS(), NormalizeHosts(inner, hs))
  }

  // ---------------------------------------------------------------------------
  // Reference reading of a configuration

  /** The delay the last kept entry for `host` gives, if any. */
  function LastHostDelay(hs: seq<(Key, real)>, host: string): Option<real>
    decreases |hs|
  {
    if |hs| == 0 then None
    else
      var last := hs[|hs| - 1];
      if KeptHost(last) && Lower(last.0.ToS()) == host then Some(last.1)
      else LastHostDelay(hs[..|hs| - 1], host)
  }

  /** The delay a configuration sets for (operation, host): the last kept host
      entry among the Hash-valued operations whose key reads `op`. */
  function Configured(es: seq<(Key, Hosts)>, op: string, host: string): Option<real>
    decreases |es|
  {
    if |es| == 0 then None
    else
      var (k, hosts) := es[|es| - 1];
      if k.ToS() == op && hosts.HostsHash? && LastHostDelay(hosts.entries, host).Some?
      then LastHostDelay(hosts.entries, host)
      else Configured(es[..|es| - 1], op, host)
  }

  lemma {:induction false} NormalizeHostsGet(acc: Assoc<string, real>, hs: seq<(Key, real)>, host: string)
    ensures Get(NormalizeHosts(acc, hs), host)
         == if LastHostDelay(hs, host).Some? then LastHostDelay(hs, host) else Get(acc, host)
    decreases |hs|
  {
    if |hs| > 0 {
      var prev := NormalizeHosts(acc, hs[..|hs| - 1]);
      var last := hs[|hs| - 1];
      NormalizeHostsGet(acc, hs[..|hs| - 1], host);
      if KeptHost(last) {
        if Lower(last.0.ToS()) == host {
          GetPut(prev, host, last.1);
        } else {
          GetPutOther(prev, Lower(last.0.ToS()), last.1, host);
        }
      }
    }
  }

  lemma {:induction false} NormalizeOpsGet(es: seq<(Key, Hosts)>, op: string, host: string)
    ensures DelayFor(NormalizeOps(es), op, host) == Configured(es, op, host)
    decreases |es|
  {
    if |es| > 0 {
      var prev := NormalizeOps(es[..|es| - 1]);
      var (k, hosts) := es[|es| - 1];
      NormalizeOpsGet(es[..|es| - 1], op, host);
      if hosts.HostsHash? {
        var inner := Get(prev, k.ToS()).GetOr([]);
        var r := Put(prev, k.ToS(), NormalizeHosts(inner, hosts.entries));
        if k.ToS() == op {
          GetPut(prev, op, NormalizeHosts(inner, hosts.entries));
          NormalizeHostsGet(inner, hosts.entries, host);
        } else {
          GetPutOther(prev, k.ToS(), NormalizeHosts(inner, hosts.entries), op);
        }
      }
    }
  }

  /** The normalised table answers every (operation, host) exactly as the
      configuration reads: a kept (positive, non-empty-host) entry wins over
      earlier ones, and nothing else is found. */
  lemma NormalizeReads(config: Config, op: string, host: string)
    ensures DelayFor(Normalize(config), op, host)
         == if config.ConfigHash? then Configured(config.entries, op, host) else None
  {
    if config.ConfigHash? {
      NormalizeOpsGet(config.entries, op, host);
    }
  }

  /** Everything found in a configuration is a positive delay under a non-empty, lower-case host. */
  lemma {:induction false} ConfiguredKept(es: seq<(Key, Hosts)>, op: string, host: string)
    requires Configured(es, op, host).Some?
    ensures Configured(es, op, host).value > 0.0 && host != [] && IsLower(host)
    decreases |es|
  {
    var (k, hosts) := es[|es| - 1];
    if k.ToS() == op && hosts.HostsHash? && LastHostDelay(hosts.entries, host).Some? {
      LastHostKept(hosts.entries, host);
    } else {
      ConfiguredKept(es[..|es| - 1], op, host);
    }
  }

  lemma {:induction false} LastHostKept(hs: seq<(Key, real)>, host: string)
    requires LastHostDelay(hs, host).Some?
    ensures LastHostDelay(hs, host).value > 0.0 && host != [] && IsLower(host)
    decreases |hs|
  {
    var last := hs[|hs| - 1];
    if !(KeptHost(last) && Lower(last.0.ToS()) == host) {
      LastHostKept(hs[..|hs| - 1], host);
    }
  }

  // ---------------------------------------------------------------------------
  // apply_delay

  /** `@operation_last_request`: the recorded start of the latest request per (operation, host). */
  type Schedule = map<(string, string), real>

  /** The wait before the request may start, and the schedule after it. */
  datatype Step = Step(wait: real, schedule: Schedule)

  /** The (operation, host) key and delay `apply_delay` looks up (lines
      16-22): `None` when the operation, the URI or its host is missing, or
      no delay is configured. */
  function DelayedKey(delays: Delays, op: Option<Key>, uri: Option<Uri>): (r: Option<((string, string), real)>)
    ensures op.None? || uri.None? || uri.value.host.None? ==> r.None?
    ensures op.Some? && uri.Some? && uri.value.host.Some? ==>
              var key := (op.value.ToS(), Lower(uri.value.host.value));
              r == (match DelayFor(delays, key.0, key.1)
                    case None => None
                    case Some(d) => Some((key, d)))
  {
    if op.None? || uri.None? then None
    else
      match uri.value.host
      case None => None
      case Some(h) =>
        var host := Lower(h);
        match DelayFor(delays, op.value.ToS(), host)
        case None => None
        case Some(delay) => Some(((op.value.ToS(), host), delay))
  }

  /** The critical section: wait until `delay` after the key's last start
      (not at all for the first request) and record the new start. */
  function Reserve(schedule: Schedule, key: (string, string), delay: real, now: real): (r: Step)
    ensures r.wait >= 0.0 && key in r.schedule && r.schedule[key] == now + r.wait
    ensures key in schedule ==> r.schedule[key] == Max(schedule[key] + delay, now)
    ensures key !in schedule ==> r.wait == 0.0
    ensures forall k :: k != key ==> (k in r.schedule <==> k in schedule)
    ensures forall k :: k != key && k in schedule ==> r.schedule[k] == schedule[k]
  {
    var earliest := if key in schedule then schedule[key] + delay else now;
    var wait := Max(earliest - now, 0.0);
    Step(wait, schedule[key := now + wait])
  }

  /** `apply_delay(operation, uri)` at monotonic time `now`. */
  function ApplyDelay(delays: Delays, schedule: Schedule, op: Option<Key>, uri: Option<Uri>, now: real): (r: Step)
    ensures r.wait >= 0.0
    ensures DelayedKey(delays, op, uri).None? ==> r == Step(0.0, schedule)
  {
    match DelayedKey(delays, op, uri)
    case None => Step(0.0, schedule)
    case Some((key, delay)) => Reserve(schedule, key, delay, now)
  }

  /** The timing rule of one delayed request: the first one for its key waits
      0 and records `now`; a later one waits `max(last + delay - now, 0)` and
      records `max(last + delay, now)`; no other key's entry changes. */
  lemma ApplyDelayTiming(delays: Delays, schedule: Schedule, op: Key, uri: Uri, now: real, host: string, delay: real)
    requires uri.host.Some? && host == Lower(uri.host.value)
    requires DelayFor(delays, op.ToS(), host) == Some(delay)
    ensures var r := ApplyDelay(delays, schedule, Some(op), Some(uri), now);
            var key := (op.ToS(), host);
            key in r.schedule
            && (key !in schedule ==> r.wait == 0.0 && r.schedule[key] == now)
            && (key in schedule ==> (r.wait == Max(schedule[key] + delay - now, 0.0)
                                     && r.schedule[key] == Max(schedule[key] + delay, now)))
            && (forall k :: k != key ==> (k in r.schedule <==> k in schedule))
            && (forall k :: k != key && k in schedule ==> r.schedule[k] == schedule[k])
  {
  }

  /** The start times successive requests were given, and the schedule after them. */
  datatype Trace = Trace(starts: seq<real>, schedule: Schedule)

  /** Successive calls of `step`, one per clock reading in `nows`, each on
      the schedule the previous one left. */
  function Run(step: (Schedule, real) -> Step, schedule: Schedule, nows: seq<real>): (r: Trace)
    ensures |r.starts| == |nows|
    decreases |nows|
  {
    if |nows| == 0 then Trace([], schedule)
    else
      var prev := Run(step, schedule, nows[..|nows| - 1]);
      var now := nows[|nows| - 1];
      var s := step(prev.schedule, now);
      Trace(prev.starts + [now + s.wait], s.schedule)
  }

  /** Successive `apply_delay(op, uri)` calls, made at the clock readings `nows`. */
  function Starts(delays: Delays, schedule: Schedule, op: Key, uri: Uri, nows: seq<real>): (r: Trace)
    ensures |r.starts| == |nows|
  {
    Run((s, now) => ApplyDelay(delays, s, Some(op), Some(uri), now), schedule, nows)
  }

  /** Each request starts no earlier than the clock reading it was made at. */
  predicate NoEarlier(starts: seq<real>, nows: seq<real>) {
    |starts| == |nows| && forall i :: 0 <= i < |nows| ==> starts[i] >= nows[i]
  }

  /** Consecutive start times are at least `delay` apart. */
  predicate Spaced(starts: seq<real>, delay: real) {
    forall i :: 0 < i < |starts| ==> starts[i] >= starts[i - 1] + delay
  }

  /** What a trace of requests for `key` keeps: the schedule holds the last
      start, no request starts before it asked, and starts are `delay` apart. */
  predicate Keeps(t: Trace, nows: seq<real>, key: (string, string), delay: real) {
    (|nows| > 0 ==> key in t.schedule && |t.starts| == |nows| && t.schedule[key] == t.starts[|nows| - 1])
    && NoEarlier(t.starts, nows) && Spaced(t.starts, delay)
  }

  /** A step that records its start under `key`, never starts before it is
      asked, and starts at least `delay` after the start it finds there. */
  ghost predicate Reserves(step: (Schedule, real) -> Step, key: (string, string), delay: real) {
    forall s, now :: key in step(s, now).schedule && step(s, now).schedule[key] == now + step(s, now).wait
                     && step(s, now).wait >= 0.0
                     && (key in s ==> now + step(s, now).wait >= s[key] + delay)
  }

  /** Consecutive start times for one configured key are at least `delay`
      apart, whatever the clock readings, and each request starts no earlier
      than it asked. */
  lemma StartsSpaced(delays: Delays, schedule: Schedule, op: Key, uri: Uri, nows: seq<real>, delay: real)
    requires uri.host.Some? && DelayFor(delays, op.ToS(), Lower(uri.host.value)) == Some(delay)
    ensures Keeps(Starts(delays, schedule, op, uri, nows), nows, (op.ToS(), Lower(uri.host.value)), delay)
  {
    var key := (op.ToS(), Lower(uri.host.value));
    var step := (s, now) => ApplyDelay(delays, s, Some(op), Some(uri), now);
    forall s, now ensures key in step(s, now).schedule && step(s, now).schedule[key] == now + step(s, now).wait
                          && step(s, now).wait >= 0.0
                          && (key in s ==> now + step(s, now).wait >= s[key] + delay)
    {
      StartStep(delays, s, op, uri, now, delay);
    }
    RunSpaced(step, key, delay, schedule, nows);
  }

  /** Any step that reserves its key spaces the starts of a run. */
  lemma {:induction false} RunSpaced(step: (Schedule, real) -> Step, key: (string, string), delay: real,
                                     schedule: Schedule, nows: seq<real>)
    requires Reserves(step, key, delay)
    ensures Keeps(Run(step, schedule, nows), nows, key, delay)
    decreases |nows|
  {
    if |nows| > 0 {
      var init := nows[..|nows| - 1];
      RunSpaced(step, key, delay, schedule, init);
      var prev := Run(step, schedule, init);
      var now := nows[|nows| - 1];
      var s := step(prev.schedule, now);
      TraceStep(prev, init, now, s, key, delay);
      assert nows == init + [now];
    }
  }

  /** One more request keeps what the trace keeps. */
  lemma TraceStep(prev: Trace, init: seq<real>, now: real, step: Step, key: (string, string), delay: real)
    requires Keeps(prev, init, key, delay)
    requires key in step.schedule && step.schedule[key] == now + step.wait && now + step.wait >= now
    requires key in prev.schedule ==> now + step.wait >= prev.schedule[key] + delay
    ensures Keeps(Trace(prev.starts + [now + step.wait], step.schedule), init + [now], key, delay)
  {
    SpacedSnoc(prev.starts, init, now, now + step.wait, delay);
  }

  /** A delayed request starts when its key's new entry says, no earlier than
      asked and at least `delay` after the entry it found. */
  lemma StartStep(delays: Delays, schedule: Schedule, op: Key, uri: Uri, now: real, delay: real)
    requires uri.host.Some? && DelayFor(delays, op.ToS(), Lower(uri.host.value)) == Some(delay)
    ensures var r := ApplyDelay(delays, schedule, Some(op), Some(uri), now);
            var key := (op.ToS(), Lower(uri.host.value));
            key in r.schedule && r.schedule[key] == now + r.wait && r.wait >= 0.0
            && (key in schedule ==> now + r.wait >= schedule[key] + delay)
  {
    ApplyDelayTiming(delays, schedule, op, uri, now, Lower(uri.host.value), delay);
  }

  /** Appending a start that keeps its distance from the previous one and
      from its own clock reading keeps both properties. */
  lemma SpacedSnoc(starts: seq<real>, nows: seq<real>, now: real, s: real, delay: real)
    requires NoEarlier(starts, nows) && Spaced(starts, delay)
    requires s >= now && (|starts| > 0 ==> s >= starts[|starts| - 1] + delay)
    ensures NoEarlier(starts + [s], nows + [now]) && Spaced(starts + [s], delay)
  {
    assert forall i :: 0 <= i < |starts| ==> (starts + [s])[i] == starts[i] && (nows + [now])[i] == nows[i];
  }
}
