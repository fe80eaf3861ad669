/** The data of the workspace store, trip plans ("workspaces") and the
    flights inside them, and the new lists its mutators compute. */
module WorkspaceModel {
  import opened Wrappers
  import opened JsValues
  import opened Base64
  import SeqOps

  /** The properties of a flight other than its identifier. */
  type FlightFields = m: map<string, Json> | "id" !in m witness map[]

  /** A flight: its identifier and its other properties as stored. The store
      keeps whatever properties it is given; an import may bring any JSON. */
  datatype Flight = Flight(id: string, fields: FlightFields)

  /** `Partial<Flight>`: an identifier to set, if any, and the other
      properties to overwrite. */
  datatype FlightUpdate = FlightUpdate(id: Option<string>, fields: FlightFields)

  /** A workspace. Its name is whatever value it was created or imported
      with (the import keeps any truthy JSON value). */
  datatype Workspace = Workspace(id: string, name: Json, flights: seq<Flight>, createdAt: int)

  /** `Partial<Workspace>`: the fields an update sets. */
  datatype WorkspaceUpdate = WorkspaceUpdate(
    id: Option<string>,
    name: Option<Json>,
    flights: Option<seq<Flight>>,
    createdAt: Option<int>)

  /** The failures `exportWorkspace` and `importWorkspace` report. */
  datatype StoreError = NotFound | InvalidFormat | Thrown(exception: JsException)

  /** The `error` text of a failure result. For a caught exception the source
      reports the runtime's own message; the model gives the exception's name. */
  function Message(e: StoreError): (m: string)
    ensures e == NotFound ==> m == "Workspace not found"
    ensures e == InvalidFormat ==> m == "Invalid workspace data format"
  {
    match e
    case NotFound => "Workspace not found"
    case InvalidFormat => "Invalid workspace data format"
    case Thrown(InvalidCharacterError) => "InvalidCharacterError"
    case Thrown(SyntaxError) => "SyntaxError"
    case Thrown(TypeError) => "TypeError"
  }

  // ---------------------------------------------------------------------
  // The flight type of the application

  /** The properties a flight has, by its declared type. */
  const FlightKeys: set<string> :=
    {"origin", "destination", "date", "airline", "miles", "price", "ticketLink", "useDirectPrice", "taxes"}

  /** A property value of the declared type for that property name. */
  predicate HasDeclaredType(key: string, v: Json)
  {
    if key == "miles" then v.Num?
    else if key == "useDirectPrice" then v.Bool?
    else v.Str?
  }

  /** A flight's properties as its declared type has them: only known names,
      each of its type, and all present except the optional `taxes`. */
  predicate IsFlightShape(m: map<string, Json>)
  {
    && (forall k :: k in m ==> k in FlightKeys && HasDeclaredType(k, m[k]))
    && (forall k :: k in FlightKeys && k != "taxes" ==> k in m)
  }

  /** An update's properties as `Partial<Flight>` has them. */
  predicate IsFlightUpdateShape(m: map<string, Json>)
  {
    forall k :: k in m ==> k in FlightKeys && HasDeclaredType(k, m[k])
  }

  // ---------------------------------------------------------------------
  // Spread-merges

  /** `{ ...flight, ...updates }`: the update's properties win. */
  function MergeFlight(f: Flight, u: FlightUpdate): Flight
  {
    Flight(if u.id.Some? then u.id.value else f.id, f.fields + u.fields)
  }

  /** `{ ...workspace, ...updates }`: the update's fields win. */
  function MergeWorkspace(w: Workspace, u: WorkspaceUpdate): Workspace
  {
    Workspace(
      if u.id.Some? then u.id.value else w.id,
      if u.name.Some? then u.name.value else w.name,
      if u.flights.Some? then u.flights.value else w.flights,
      if u.createdAt.Some? then u.createdAt.value else w.createdAt)
  }

  /** A typed update keeps a typed flight typed. */
  lemma {:induction false} MergeKeepsFlightShape(f: Flight, u: FlightUpdate)
    requires IsFlightShape(f.fields) && IsFlightUpdateShape(u.fields)
    ensures IsFlightShape(MergeFlight(f, u).fields)
  {
  }

  // ---------------------------------------------------------------------
  // The new lists the mutators compute

  /** True when some workspace in the list has identifier `id`. */
  predicate HasWorkspace(ws: seq<Workspace>, id: string)
  {
    exists w :: w in ws && w.id == id
  }

  /** True when some flight in the list has identifier `id`. */
  predicate HasFlight(fs: seq<Flight>, id: string)
  {
    exists f :: f in fs && f.id == id
  }

  /** The list after `removeWorkspace`: exactly the workspaces whose id
      differs, in their original order. */
  function WithoutWorkspace(ws: seq<Workspace>, id: string): (r: seq<Workspace>)
    ensures SeqOps.IsSubsequence(r, ws)
    ensures forall w :: w in r <==> w in ws && w.id != id
    ensures forall w :: multiset(r)[w] == if w.id != id then multiset(ws)[w] else 0
  {
    SeqOps.FilterExactly(ws, (w: Workspace) => w.id != id);
    SeqOps.Filter(ws, (w: Workspace) => w.id != id)
  }

  /** The list after `updateWorkspace`: same length, the update merged into
      the workspaces with identifier `id` and every other one untouched. */
  function WorkspacesUpdated(ws: seq<Workspace>, id: string, u: WorkspaceUpdate): (r: seq<Workspace>)
    ensures |r| == |ws|
    ensures forall i :: 0 <= i < |ws| && ws[i].id == id ==> r[i] == MergeWorkspace(ws[i], u)
    ensures forall i :: 0 <= i < |ws| && ws[i].id != id ==> r[i] == ws[i]
  {
    SeqOps.MapWhere(ws, (w: Workspace) => w.id == id, w => MergeWorkspace(w, u))
  }

  /** A workspace's flights after `removeFlight`: exactly the flights whose id
      differs, in their original order. */
  function FlightsWithout(fs: seq<Flight>, flightId: string): (r: seq<Flight>)
    ensures SeqOps.IsSubsequence(r, fs)
    ensures forall f :: f in r <==> f in fs && f.id != flightId
    ensures forall f :: multiset(r)[f] == if f.id != flightId then multiset(fs)[f] else 0
  {
    SeqOps.FilterExactly(fs, (f: Flight) => f.id != flightId);
    SeqOps.Filter(fs, (f: Flight) => f.id != flightId)
  }

  /** A workspace's flights after `updateFlight`: same length, the update
      merged into the flights with identifier `flightId`, the others untouched. */
  function FlightsUpdated(fs: seq<Flight>, flightId: string, u: FlightUpdate): (r: seq<Flight>)
    ensures |r| == |fs|
    ensures forall k :: 0 <= k < |fs| && fs[k].id == flightId ==> r[k] == MergeFlight(fs[k], u)
    ensures forall k :: 0 <= k < |fs| && fs[k].id != flightId ==> r[k] == fs[k]
  {
    SeqOps.MapWhere(fs, (f: Flight) => f.id == flightId, f => MergeFlight(f, u))
  }

  /** The number of workspaces in the list with identifier `id`. */
  function CountWithId(ws: seq<Workspace>, id: string): (n: nat)
    ensures n <= |ws|
    decreases |ws|
  {
    if ws == [] then 0
    else CountWithId(ws[..|ws| - 1], id) + (if ws[|ws| - 1].id == id then 1 else 0)
  }

  /** A workspace with the identifier adds one to the count of any longer
      prefix past it. */
  lemma {:induction false} CountPastMatch(ws: seq<Workspace>, id: string, i: nat, k: nat)
    requires i < k <= |ws| && ws[i].id == id
    ensures CountWithId(ws[..i], id) + 1 <= CountWithId(ws[..k], id)
    decreases k
  {
    assert ws[..k][..k - 1] == ws[..k - 1];
    if k > i + 1 {
      CountPastMatch(ws, id, i, k - 1);
    }
  }

  /** In a list with one workspace at most with the identifier, none comes
      before it. */
  lemma {:induction false} OnlyMatchIsFirst(ws: seq<Workspace>, id: string, i: nat)
    requires CountWithId(ws, id) <= 1
    requires i < |ws| && ws[i].id == id
    ensures CountWithId(ws[..i], id) == 0
  {
    CountPastMatch(ws, id, i, |ws|);
    assert ws[..|ws|] == ws;
  }

  /** The list after `addFlight`: the matching workspaces get the new flight
      at the end of their flights, the j-th of them (in list order) under the
      j-th identifier minted, `ids(j)`; everything else is untouched. */
  function WithFlightAdded(ws: seq<Workspace>, wsId: string, fields: FlightFields, ids: nat -> string)
    : (r: seq<Workspace>)
    ensures |r| == |ws|
    ensures forall i :: 0 <= i < |ws| && ws[i].id == wsId ==>
      r[i] == ws[i].(flights := ws[i].flights + [Flight(ids(CountWithId(ws[..i], wsId)), fields)])
    ensures forall i :: 0 <= i < |ws| && ws[i].id != wsId ==> r[i] == ws[i]
    decreases |ws|
  {
    if ws == [] then []
    else
      var init, w := ws[..|ws| - 1], ws[|ws| - 1];
      assert forall i :: 0 <= i < |init| ==> ws[..i] == init[..i];
      WithFlightAdded(init, wsId, fields, ids)
        + [if w.id == wsId then w.(flights := w.flights + [Flight(ids(CountWithId(init, wsId)), fields)]) else w]
  }

  /** With distinct minted identifiers, no two matching workspaces get their
      new flight under the same identifier. */
  lemma {:induction false} AddedFlightIdsDistinct(ws: seq<Workspace>, wsId: string, fields: FlightFields,
                                                  ids: nat -> string, i: nat, k: nat)
    requires forall a: nat, b: nat :: ids(a) == ids(b) ==> a == b
    requires i < k < |ws| && ws[i].id == wsId && ws[k].id == wsId
    ensures var r := WithFlightAdded(ws, wsId, fields, ids);
      r[i].flights[|r[i].flights| - 1].id != r[k].flights[|r[k].flights| - 1].id
  {
    CountPastMatch(ws, wsId, i, k);
  }

  /** The list after `removeFlight`: the matching workspaces lose the flights
      with identifier `flightId`; everything else is untouched. */
  function WithFlightRemoved(ws: seq<Workspace>, wsId: string, flightId: string): (r: seq<Workspace>)
    ensures |r| == |ws|
    ensures forall i :: 0 <= i < |ws| && ws[i].id == wsId ==>
      r[i] == ws[i].(flights := FlightsWithout(ws[i].flights, flightId))
    ensures forall i :: 0 <= i < |ws| && ws[i].id != wsId ==> r[i] == ws[i]
  {
    SeqOps.MapWhere(ws, (w: Workspace) => w.id == wsId,
      (w: Workspace) => w.(flights := FlightsWithout(w.flights, flightId)))
  }

  /** The list after `updateFlight`: in the matching workspaces the update is
      merged into the matching flights; everything else is untouched. */
  function WithFlightUpdated(ws: seq<Workspace>, wsId: string, flightId: string, u: FlightUpdate)
    : (r: seq<Workspace>)
    ensures |r| == |ws|
    ensures forall i :: 0 <= i < |ws| && ws[i].id == wsId ==>
      r[i] == ws[i].(flights := FlightsUpdated(ws[i].flights, flightId, u))
    ensures forall i :: 0 <= i < |ws| && ws[i].id != wsId ==> r[i] == ws[i]
  {
    SeqOps.MapWhere(ws, (w: Workspace) => w.id == wsId,
      (w: Workspace) => w.(flights := FlightsUpdated(w.flights, flightId, u)))
  }

  /** Every list operation addressed to an unknown workspace leaves the list
      identical. */
  lemma {:induction false} UnknownWorkspaceIsNoOp(ws: seq<Workspace>, id: string, u: WorkspaceUpdate,
                               fields: FlightFields, ids: nat -> string, flightId: string, fu: FlightUpdate)
    requires !HasWorkspace(ws, id)
    ensures WithoutWorkspace(ws, id) == ws
    ensures WorkspacesUpdated(ws, id, u) == ws
    ensures WithFlightAdded(ws, id, fields, ids) == ws
    ensures WithFlightRemoved(ws, id, flightId) == ws
    ensures WithFlightUpdated(ws, id, flightId, fu) == ws
  {
    assert WithoutWorkspace(ws, id) == ws by {
      SeqOps.FilterKeepsAll(ws, (w: Workspace) => w.id != id);
    }
    AddFlightToUnknown(ws, id, fields, ids);
    forall i | 0 <= i < |ws| ensures ws[i].id != id {
      assert ws[i] in ws;
    }
  }

  /** `addFlight` to an unknown workspace mints nothing and changes nothing. */
  lemma {:induction false} AddFlightToUnknown(ws: seq<Workspace>, id: string, fields: FlightFields, ids: nat -> string)
    requires !HasWorkspace(ws, id)
    ensures WithFlightAdded(ws, id, fields, ids) == ws
  {
    var r := WithFlightAdded(ws, id, fields, ids);
    forall i | 0 <= i < |ws| ensures r[i] == ws[i] {
      assert ws[i] in ws;
    }
  }

  /** Removing or updating an unknown flight leaves a workspace's flights identical. */
  lemma {:induction false} UnknownFlightIsNoOp(fs: seq<Flight>, flightId: string, u: FlightUpdate)
    requires !HasFlight(fs, flightId)
    ensures FlightsWithout(fs, flightId) == fs
    ensures FlightsUpdated(fs, flightId, u) == fs
  {
    SeqOps.FilterKeepsAll(fs, (f: Flight) => f.id != flightId);
  }

  /** Removing a workspace twice removes no more than removing it once. */
  lemma {:induction false} RemoveWorkspaceIdempotent(ws: seq<Workspace>, id: string)
    ensures WithoutWorkspace(WithoutWorkspace(ws, id), id) == WithoutWorkspace(ws, id)
  {
    var r := WithoutWorkspace(ws, id);
    SeqOps.FilterKeepsAll(r, (w: Workspace) => w.id != id);
  }

  /** With an identifier not yet in use, removing the workspace just added
      restores the list. */
  lemma {:induction false} RemoveUndoesAddWorkspace(ws: seq<Workspace>, w: Workspace)
    requires !HasWorkspace(ws, w.id)
    ensures WithoutWorkspace(ws + [w], w.id) == ws
  {
    var keep := (v: Workspace) => v.id != w.id;
    SeqOps.FilterAppend(ws, [w], keep);
    SeqOps.FilterKeepsAll(ws, keep);
    assert SeqOps.Filter([w], keep) == [];
  }

  /** Removing a flight just appended to a list without its identifier gives
      the list back. */
  lemma {:induction false} FlightsWithoutAppended(fs: seq<Flight>, f: Flight)
    requires !HasFlight(fs, f.id)
    ensures FlightsWithout(fs + [f], f.id) == fs
  {
    var keep := (g: Flight) => g.id != f.id;
    SeqOps.FilterAppend(fs, [f], keep);
    SeqOps.FilterKeepsAll(fs, keep);
    assert SeqOps.Filter([f], keep) == [];
  }

  /** When one workspace at most has the identifier, and the identifier
      minted first is not yet used in it, removing the flight just added
      under that identifier restores the list. */
  lemma {:induction false} RemoveUndoesAddFlight(ws: seq<Workspace>, wsId: string, fields: FlightFields, ids: nat -> string)
    requires CountWithId(ws, wsId) <= 1
    requires forall i :: 0 <= i < |ws| && ws[i].id == wsId ==> !HasFlight(ws[i].flights, ids(0))
    ensures WithFlightRemoved(WithFlightAdded(ws, wsId, fields, ids), wsId, ids(0)) == ws
  {
    var added := WithFlightAdded(ws, wsId, fields, ids);
    var r := WithFlightRemoved(added, wsId, ids(0));
    forall i | 0 <= i < |ws| ensures r[i] == ws[i] {
      if ws[i].id == wsId {
        OnlyMatchIsFirst(ws, wsId, i);
        var f := Flight(ids(0), fields);
        assert added[i] == ws[i].(flights := ws[i].flights + [f]);
        FlightsWithoutAppended(ws[i].flights, f);
      }
    }
  }
}
