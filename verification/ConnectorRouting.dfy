/** The connectors in force: static ones that are allowed, and a proxy for every enabled target system. */
module ConnectorRouting {
  import opened Json
  import opened Text
  import opened TargetSystems

  datatype Connector = Static(kind: string) | Proxy(kind: string, name: string, config: JsonObject)

  type Connectors = map<string, Connector>

  /** The row count and the latest `updatedAt` of the whole table. */
  datatype Version = Version(count: nat, latest: Option<int>)

  predicate IsLatest(table: Table, latest: Option<int>) {
    match latest
    case None => table == map[]
    case Some(stamp) =>
      && (exists id | id in table :: table[id].updatedAt == stamp)
      && (forall id | id in table :: table[id].updatedAt <= stamp)
  }

  predicate IsVersion(table: Table, v: Version) {
    v.count == |table| && IsLatest(table, v.latest)
  }

  /** Registered connector types, and those of them the allowlist lets be called by type. */
  datatype Registered = Registered(kinds: set<string>, allowed: set<string>, store: Store) {
    predicate Serves(row: System, name: string) {
      row.enabled && row.name == name && row.kind in kinds && store.ConfigOf(row.config).Some?
    }

    /** A reload reads the configuration of every enabled row before it looks at the type. */
    predicate Readable(table: Table) {
      forall id | id in table && table[id].enabled :: store.ConfigOf(table[id].config).Some?
    }

    function ProxyOf(row: System): Connector
      requires store.ConfigOf(row.config).Some?
    {
      Proxy(row.kind, row.name, store.ConfigOf(row.config).value)
    }

    /** Where a name leads: to its enabled target system, else to an allowed static connector, else nowhere. */
    ghost function Route(table: Table, name: string): Option<Connector> {
      if exists id :: id in table && Serves(table[id], name) then
        var id :| id in table && Serves(table[id], name);
        Some(ProxyOf(table[id]))
      else if name in kinds && name in allowed then Some(Static(name))
      else None
    }

    ghost predicate Routes(connectors: Connectors, table: Table) {
      forall name :: Get(connectors, name) == Route(table, name)
    }

    ghost predicate SameRoutes(a: Table, b: Table) {
      forall name :: Route(a, name) == Route(b, name)
    }
  }

  function Get(connectors: Connectors, name: string): Option<Connector> {
    if name in connectors then Some(connectors[name]) else None
  }

  /** Names listed in `STATIC_CONNECTOR_ALLOWLIST`; unset, only the fake connector and not in production. */
  function Allowlist(configured: Option<string>, production: bool): set<string> {
    match configured
    case Some(text) =>
      var parts := Split(text, ',');
      (set i | 0 <= i < |parts| :: Trim(parts[i])) - {""}
    case None => if production then {} else {"fake"}
  }

  lemma AllowlistIff(text: string, production: bool, name: string)
    ensures name in Allowlist(Some(text), production) <==>
      name != "" && exists pieces, i: nat, a, b ::
        && i < |pieces| && Join(pieces, ',') == text && (forall piece | piece in pieces :: ',' !in piece)
        && Tight(name) && Blank(a) && Blank(b) && pieces[i] == a + name + b
  {
    hide Split, Join, Trim, IsSpace;
    var parts := Split(text, ',');
    JoinUndoesSplit(text, ',');
    PiecesLackIt(text, ',');
    if name in Allowlist(Some(text), production) {
      var i :| 0 <= i < |parts| && Trim(parts[i]) == name;
      var a, b := TrimLeavesBlanks(parts[i]);
    }
    forall pieces, i: nat, a, b |
      && i < |pieces| && Join(pieces, ',') == text && (forall piece | piece in pieces :: ',' !in piece)
      && Tight(name) && Blank(a) && Blank(b) && pieces[i] == a + name + b
      ensures i < |parts| && Trim(parts[i]) == name
    {
      SplitUndoesJoin(pieces, ',');
      TrimDropsBlanks(a, name, b);
    }
  }

  /** Without a list, production has no connector but those of its target systems; elsewhere only the fake one is
      there by its type. */
  lemma WithoutAllowlist(kinds: set<string>, store: Store, table: Table, name: string, production: bool)
    ensures var registered := Registered(kinds, Allowlist(None, production), store);
      (exists id :: id in table && registered.Serves(table[id], name))
      || registered.Route(table, name) ==
           if !production && name == "fake" && name in kinds then Some(Static(name)) else None
  {
  }

  // ----- Switching a system off and on -----

  /** A system that an update switches off is no longer served, and leaves its name to a static connector. */
  lemma DisabledIsNotRouted(registered: Registered, table: Table, id: Id, row: System)
    requires UniqueNames(table[id := row]) && !row.enabled
    ensures registered.Route(table[id := row], row.name) ==
      if row.name in registered.kinds && row.name in registered.allowed then Some(Static(row.name)) else None
  {
    hide Store.ConfigOf;
    var after := table[id := row];
    assert forall other | other in after && after[other].name == after[id].name :: other == id;
  }

  /** One that an update leaves on is served under its name, with its type and configuration. */
  lemma EnabledIsRouted(registered: Registered, table: Table, id: Id, row: System)
    requires UniqueNames(table[id := row]) && row.enabled && row.kind in registered.kinds
    requires registered.store.ConfigOf(row.config).Some?
    ensures registered.Route(table[id := row], row.name) ==
      Some(Proxy(row.kind, row.name, registered.store.ConfigOf(row.config).value))
  {
    hide Store.ConfigOf;
    var after := table[id := row];
    assert id in after && registered.Serves(after[id], row.name);
    forall other | other in after && registered.Serves(after[other], row.name) ensures other == id {
      assert after[other].name == after[id].name;
    }
  }

  // ----- Building the map -----

  function Statics(registered: Registered): Connectors {
    map kind | kind in registered.kinds && kind in registered.allowed :: Static(kind)
  }

  predicate NamesAgree(rows: seq<System>) {
    forall i, j | 0 <= i < |rows| && 0 <= j < |rows| && rows[i].name == rows[j].name :: rows[i] == rows[j]
  }

  /** What the map answers for a name once these rows have been added to the static connectors. */
  ghost predicate RoutesSoFar(registered: Registered, connectors: Connectors, rows: seq<System>, name: string) {
    && (forall row | row in rows && registered.Serves(row, name) ::
          Get(connectors, name) == Some(registered.ProxyOf(row)))
    && ((forall row | row in rows :: !registered.Serves(row, name)) ==>
          Get(connectors, name) == Get(Statics(registered), name))
  }

  lemma NothingAdded(registered: Registered)
    ensures forall name :: RoutesSoFar(registered, Statics(registered), [], name)
  {
  }

  /** Adding a row that serves its name leads that name to it and leaves every other name alone. */
  lemma OneMoreRoute(
      registered: Registered, before: Connectors, after: Connectors, rows: seq<System>, row: System, name: string)
    requires RoutesSoFar(registered, before, rows, name) && registered.store.ConfigOf(row.config).Some? && row.enabled
    requires NamesAgree(rows + [row])
    requires after == if row.kind in registered.kinds then before[row.name := registered.ProxyOf(row)] else before
    ensures RoutesSoFar(registered, after, rows + [row], name)
  {
    var all := rows + [row];
    forall other | other in all && registered.Serves(other, name)
      ensures Get(after, name) == Some(registered.ProxyOf(other))
    {
      assert all[|rows|] == row;
    }
    if forall other | other in all :: !registered.Serves(other, name) {
      assert row in all;
      forall other | other in rows ensures !registered.Serves(other, name) {
        assert other in all;
      }
    }
  }

  lemma RoutesInTheEnd(registered: Registered, connectors: Connectors, rows: seq<System>, table: Table, name: string)
    requires RoutesSoFar(registered, connectors, rows, name) && EnabledRows(rows, table)
    ensures Get(connectors, name) == registered.Route(table, name)
  {
    forall id | id in table && registered.Serves(table[id], name)
      ensures Get(connectors, name) == Some(registered.ProxyOf(table[id]))
    {
      assert table[id] in rows;
    }
  }

  /** The answer of `findMany` for the enabled rows, in any order. */
  ghost predicate EnabledRows(rows: seq<System>, table: Table) {
    && (forall id | id in table && table[id].enabled :: table[id] in rows)
    && (forall i | 0 <= i < |rows| :: rows[i].enabled && exists id :: id in table && table[id] == rows[i])
  }
}
