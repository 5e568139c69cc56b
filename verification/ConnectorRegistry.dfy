/** The registry object. It keeps, for the proof, the run of the registry protocol that it has taken part in. */
module ConnectorRegistry {
  import opened Json
  import opened TargetSystems
  import opened ConnectorRouting
  import opened RegistryProtocol

  class ConnectorRegistry {
    const registered: Registered
    var connectors: Connectors
    var lastVersion: Option<Version>
    var reloadInFlight: bool
    ghost var states: seq<State>
    ghost var steps: seq<Step>

    /** The database and this process as they are now. */
    ghost function Now(): State
      requires states != []
      reads this
    {
      states[|states| - 1]
    }

    ghost predicate Valid()
      reads this
    {
      && |states| == |steps| + 1 && Run(registered, states, steps)
      && (Now().flight == Loaded ==> Now().source.Some?)
      && connectors == Now().connectors && lastVersion == Now().last && reloadInFlight == (Now().flight != Grounded)
    }

    constructor (
        kinds: set<string>, configured: Option<string>, production: bool, store: Store,
        ghost table: Table, ghost now: int)
      requires UniqueNames(table) && forall id | id in table :: table[id].updatedAt <= now
      ensures registered == Registered(kinds, Allowlist(configured, production), store)
      ensures Valid() && Now() == State(table, now, map[], None, Grounded, None, None)
    {
      registered := Registered(kinds, Allowlist(configured, production), store);
      connectors, lastVersion, reloadInFlight := map[], None, false;
      states, steps := [State(table, now, map[], None, Grounded, None, None)], [];
    }

    /** A step of the protocol that changes none of the fields, such as a write by another process. */
    ghost method Observe(step: Step)
      requires Valid() && Enabled(registered, Now(), step)
      modifies this`states, this`steps
      ensures Run(registered, states, steps) && |states| == |steps| + 1 && Now() == Next(old(Now()), step)
      ensures states == old(states) + [Next(old(Now()), step)] && steps == old(steps) + [step]
    {
      hide Enabled, Next;
      states, steps := states + [Next(Now(), step)], steps + [step];
    }

    /** A reload already in flight is joined instead of starting another. */
    method Reload() returns (started: bool)
      requires Valid()
      modifies this
      ensures Valid() && started == !old(reloadInFlight) && reloadInFlight
      ensures Now() == if started then Next(old(Now()), Begin) else old(Now())
    {
      started := !reloadInFlight;
      if started {
        Observe(Begin);
        reloadInFlight := true;
      }
    }

    /** The reload up to its second database call. `rows` are the enabled rows, `None` when reading them fails.
        The connectors become those of the table as it is at this moment, or the reload ends. */
    method LoadRows(rows: Option<seq<System>>) returns (ok: bool)
      requires Valid() && Now().flight == Reading && UniqueNames(Now().table)
      requires rows.Some? ==> EnabledRows(rows.value, Now().table)
      modifies this
      ensures Valid() && (ok <==> rows.Some? && registered.Readable(old(Now()).table))
      ensures if ok then Now() == Next(old(Now()), ReadRows(connectors)) && registered.Routes(connectors, Now().table)
              else Now() == Next(old(Now()), Fail) && connectors == old(connectors)
    {
      hide Run, Registered.Readable, Registered.Routes, Store.ConfigOf;
      var next: Connectors := map[];
      ok := false;
      if rows.Some? {
        ok, next := BuildMap(registered, rows.value, Now().table);
      }
      if !ok {
        Observe(Fail);
        reloadInFlight := false;
        return;
      }
      Observe(ReadRows(next));
      connectors := next;
    }

    /** The end of a reload: the version read after the rows, `None` when reading it fails. From then on the
        recorded version is that of a table which routes as the connectors do, exactly when no write that
        matters fell between the two reads. */
    method RecordVersion(version: Option<Version>)
      requires Valid() && Now().flight == Loaded
      requires version.Some? ==> IsVersion(Now().table, version.value)
      modifies this
      ensures Valid() && !reloadInFlight
      ensures Now() == Next(old(Now()), if version.Some? then ReadVersion(version.value) else Fail)
      ensures version.Some? ==>
        (registered.Routes(connectors, Now().table) <==> registered.SameRoutes(old(Now()).source.value, Now().table))
    {
      hide Run, IsVersion, Registered.Routes, Registered.SameRoutes;
      var step := if version.Some? then ReadVersion(version.value) else Fail;
      Observe(step);
      if version.Some? {
        lastVersion := version;
      }
      reloadInFlight := false;
      if version.Some? {
        UnchangedVersionMeansCurrent(registered, states, steps, |steps|);
      }
    }

    /** The poller. It starts a reload when the version differs from the recorded one. When it finds nothing
        changed, the connectors are current if and only if the rows of the last reload route as the table does. */
    method ReloadIfChanged(version: Option<Version>) returns (started: bool)
      requires Valid() && (version.Some? ==> IsVersion(Now().table, version.value))
      modifies this
      ensures Valid() && connectors == old(connectors)
      ensures started <==> version.Some? && version != lastVersion && !old(reloadInFlight)
      ensures reloadInFlight == (old(reloadInFlight) || started)
      ensures version.Some? && version == lastVersion ==>
        Now().source.Some?
        && (registered.Routes(connectors, Now().table) <==> registered.SameRoutes(Now().source.value, Now().table))
    {
      hide Run, IsVersion, Registered.Routes, Registered.SameRoutes;
      started := false;
      if version.Some? && version != lastVersion {
        started := Reload();
      } else if version.Some? {
        UnchangedVersionMeansCurrent(registered, states, steps, |steps|);
      }
    }
  }

  /** The map of the allowed static connectors and a proxy for each row, row by row; `ok` is false when some
      row's configuration cannot be read. */
  method BuildMap(registered: Registered, systems: seq<System>, ghost table: Table) returns (ok: bool, next: Connectors)
    requires UniqueNames(table) && EnabledRows(systems, table)
    ensures ok <==> registered.Readable(table)
    ensures ok ==> registered.Routes(next, table)
  {
    hide Store.ConfigOf, Registered.Serves, Registered.Route, RoutesSoFar, Get;
    next := Statics(registered);
    NothingAdded(registered);
    assert NamesAgree(systems);
    for i := 0 to |systems|
      invariant forall j | 0 <= j < i :: registered.store.ConfigOf(systems[j].config).Some?
      invariant forall name :: RoutesSoFar(registered, next, systems[..i], name)
    {
      var row := systems[i];
      var config := registered.store.ConfigOf(row.config);
      if config == None {
        assert row in systems;
        return false, next;
      }
      ghost var before := next;
      if row.kind in registered.kinds {
        next := next[row.name := Proxy(row.kind, row.name, config.value)];
      }
      ghost var seen := systems[..i + 1];
      assert seen == systems[..i] + [row];
      forall name ensures RoutesSoFar(registered, next, seen, name) {
        OneMoreRoute(registered, before, next, systems[..i], row, name);
      }
    }
    assert systems[..|systems|] == systems;
    forall name ensures Get(next, name) == registered.Route(table, name) {
      RoutesInTheEnd(registered, next, systems, table, name);
    }
    assert registered.Readable(table);
    return true, next;
  }
}
