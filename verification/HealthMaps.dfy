/**
 The mutable side of the health endpoint: the collector checks write into, the probe's fields, and
 the copies that keep a served map apart from both.
 */
module HealthMaps {

  /** A Go map[string]any: a cell several holders may point at. Values are shared, never written through. */
  class HealthMap {
    var entries: map<string, int>

    constructor (entries: map<string, int>)
      ensures this.entries == entries
    {
      this.entries := entries;
    }
  }

  const UP := 1
  const DEGRADED := 2

  /** healthCollector. */
  class Collector {
    const results: HealthMap
    var downCount: nat

    constructor ()
      ensures fresh(results) && results.entries == map[] && downCount == 0
    {
      results := new HealthMap(map[]);
      downCount := 0;
    }

    method Record(name: string, result: int, down: bool)
      modifies results, `downCount
      ensures results.entries == old(results.entries)[name := result]
      ensures downCount == old(downCount) + if down then 1 else 0
    {
      results.entries := results.entries[name := result];
      if down {
        downCount := downCount + 1;
      }
    }

    /** The copy that leaves the collector: no later Record can reach it. */
    method Snapshot() returns (out: HealthMap, down: nat)
      ensures fresh(out) && out.entries == results.entries && down == downCount
    {
      out := new HealthMap(results.entries);
      down := downCount;
    }
  }

  method CloneHealth(m: HealthMap) returns (out: HealthMap)
    ensures fresh(out) && out.entries == m.entries
  {
    out := new HealthMap(m.entries);
  }

  /** appHealth: writes the aggregate keys, over a backend of the same name if there is one. */
  method AppHealth(m: HealthMap, name: int, version: int, downCount: nat)
    modifies m
    ensures var status := if downCount == 0 then UP else DEGRADED;
            m.entries == old(m.entries)["name" := name]["version" := version]["status" := status]
  {
    m.entries := m.entries["name" := name]["version" := version];
    m.entries := m.entries["status" := if downCount == 0 then UP else DEGRADED];
  }

  /** The end of runHealthChecks: a body of its own, degraded when a check was down or did not answer. */
  method Conclude(c: Collector, name: int, version: int, complete: bool) returns (body: HealthMap)
    ensures fresh(body)
    ensures body.entries.Keys == c.results.entries.Keys + {"name", "version", "status"}
    ensures forall k | k in c.results.entries && k !in {"name", "version", "status"} ::
            body.entries[k] == c.results.entries[k]
    ensures body.entries["name"] == name && body.entries["version"] == version
    ensures body.entries["status"] == if complete && c.downCount == 0 then UP else DEGRADED
  {
    var down;
    body, down := c.Snapshot();
    if !complete {
      down := down + 1;
    }
    AppHealth(body, name, version, down);
  }

  /** healthProbe without its singleflight. */
  class Probe {
    const ttl: nat
    var result: HealthMap?
    var storedAt: int
    var running: bool

    constructor (ttl: int)
      ensures this.ttl == (if ttl < 0 then 0 else ttl) && result == null && !running
    {
      this.ttl := if ttl < 0 then 0 else ttl;
      result, storedAt, running := null, 0, false;
    }

    method BeginRound() returns (ok: bool)
      modifies `running
      ensures ok == !old(running) && running
    {
      if running {
        return false;
      }
      running := true;
      return true;
    }

    method EndRound()
      modifies `running
      ensures !running
    {
      running := false;
    }

    method Get(now: int) returns (m: HealthMap?)
      ensures m != null <==> ttl != 0 && result != null && now - storedAt <= ttl
      ensures m != null ==> m == result
    {
      if ttl == 0 {
        return null;
      }
      if result == null || now - storedAt > ttl {
        return null;
      }
      return result;
    }

    method Set(m: HealthMap, now: int)
      modifies `result, `storedAt
      ensures if ttl == 0 then result == old(result) && storedAt == old(storedAt) else result == m && storedAt == now
    {
      if ttl == 0 {
        return;
      }
      result, storedAt := m, now;
    }
  }

  /**
   Everyone who can hold a health map at once: the cache, the collectors of all rounds ever started,
   whose checks may still be writing, and the callers, who may do what they like with their copies.
   */
  class Endpoint {
    const probe: Probe
    ghost var collectors: set<Collector>
    ghost var bodies: set<HealthMap>

    constructor (ttl: int)
      ensures Valid() && collectors == {} && bodies == {} && fresh(probe)
    {
      probe := new Probe(ttl);
      collectors, bodies := {}, {};
    }

    /** No map is shared between the cache, a collector and a caller. */
    ghost predicate Valid()
      reads this, probe
    {
      && (forall c | c in collectors :: c.results !in bodies && c.results != probe.result)
      && (probe.result != null ==> probe.result !in bodies)
    }

    method StartRound() returns (c: Collector)
      requires Valid()
      modifies `collectors
      ensures Valid() && fresh(c) && fresh(c.results) && collectors == old(collectors) + {c}
    {
      c := new Collector();
      collectors := collectors + {c};
    }

    /** A check records, in time or long after its round was abandoned: in its own collector, and nowhere else. */
    method CheckRecords(c: Collector, name: string, result: int, down: bool)
      requires Valid() && c in collectors
      modifies c, c.results
      ensures Valid() && c.results.entries == old(c.results.entries)[name := result]
      ensures c.downCount == old(c.downCount) + if down then 1 else 0
      ensures probe.result != null ==> probe.result.entries == old(probe.result.entries)
      ensures forall b | b in bodies :: b.entries == old(b.entries)
    {
      c.Record(name, result, down);
    }

    /** A round's leader concludes it, caches a complete result, and hands out a copy. */
    method Publish(c: Collector, name: int, version: int, complete: bool, now: int) returns (body: HealthMap)
      requires Valid() && c in collectors
      modifies `bodies, probe
      ensures Valid() && fresh(body) && bodies == old(bodies) + {body}
      ensures body.entries.Keys == c.results.entries.Keys + {"name", "version", "status"}
      ensures forall k | k in c.results.entries && k !in {"name", "version", "status"} ::
              body.entries[k] == c.results.entries[k]
      ensures body.entries["name"] == name && body.entries["version"] == version
      ensures body.entries["status"] == if complete && c.downCount == 0 then UP else DEGRADED
      ensures !complete || probe.ttl == 0 ==> probe.result == old(probe.result) && probe.storedAt == old(probe.storedAt)
      ensures complete && probe.ttl != 0 ==>
                && probe.result != null && fresh(probe.result)
                && probe.result.entries == body.entries && probe.storedAt == now
    {
      var concluded := Conclude(c, name, version, complete);
      if complete {
        probe.Set(concluded, now);
      }
      body := CloneHealth(concluded);
      bodies := bodies + {body};
    }

    /** A caller served from the cache gets a copy of its own. */
    method ServeCached(now: int) returns (body: HealthMap?)
      requires Valid()
      modifies `bodies
      ensures Valid()
      ensures body != null <==> probe.ttl != 0 && probe.result != null && now - probe.storedAt <= probe.ttl
      ensures body != null ==> fresh(body) && body.entries == probe.result.entries && bodies == old(bodies) + {body}
    {
      var cached := probe.Get(now);
      if cached == null {
        return null;
      }
      var copy := CloneHealth(cached);
      bodies := bodies + {copy};
      return copy;
    }

    /** A caller rewrites its copy: neither the cache, nor a collector, nor another caller notices. */
    method CallerRewrites(body: HealthMap, entries: map<string, int>)
      requires Valid() && body in bodies
      modifies body
      ensures Valid() && body.entries == entries
      ensures probe.result != null ==> probe.result.entries == old(probe.result.entries)
      ensures forall b | b in bodies && b != body :: b.entries == old(b.entries)
      ensures forall c | c in collectors :: c.results.entries == old(c.results.entries)
    {
      body.entries := entries;
    }
  }
}
