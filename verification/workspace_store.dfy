/** The workspace store object: the list of workspaces and the pointer to the
    active one, both replaced by the mutators; the share codec's two entry
    points. Fresh identifiers (`crypto.randomUUID()`) and the clock
    (`Date.now()`) are parameters. */
module WorkspaceStore {
  import opened Wrappers
  import opened JsValues
  import opened Base64
  import opened WorkspaceModel
  import opened WorkspaceShare
  import SeqOps

  class Store {
    var workspaces: seq<Workspace>
    var activeWorkspaceId: Option<string>

    /** The persisted store starts with no workspaces and no active one. */
    constructor ()
      ensures workspaces == [] && activeWorkspaceId == None
    {
      workspaces := [];
      activeWorkspaceId := None;
    }

    /** `setActiveWorkspace`: points at `id` whether or not a workspace has it. */
    method SetActiveWorkspace(id: string)
      modifies this
      ensures activeWorkspaceId == Some(id)
      ensures workspaces == old(workspaces)
    {
      activeWorkspaceId := Some(id);
    }

    /** `addWorkspace`: appends one workspace with the given name and flights,
        the minted id and the current time. */
    method AddWorkspace(name: Json, flights: seq<Flight>, freshId: string, now: int)
      modifies this
      ensures workspaces == old(workspaces) + [Workspace(freshId, name, flights, now)]
      ensures activeWorkspaceId == old(activeWorkspaceId)
    {
      workspaces := workspaces + [Workspace(freshId, name, flights, now)];
    }

    /** `removeWorkspace`: keeps the workspaces whose id differs and clears the
        pointer exactly when it pointed at the removed id. */
    method RemoveWorkspace(id: string)
      modifies this
      ensures workspaces == WithoutWorkspace(old(workspaces), id)
      ensures activeWorkspaceId == if old(activeWorkspaceId) == Some(id) then None else old(activeWorkspaceId)
    {
      workspaces := SeqOps.Filter(workspaces, (w: Workspace) => w.id != id);
      activeWorkspaceId := if activeWorkspaceId == Some(id) then None else activeWorkspaceId;
    }

    /** `updateWorkspace`: merges the update into the workspaces with that id. */
    method UpdateWorkspace(id: string, u: WorkspaceUpdate)
      modifies this
      ensures workspaces == WorkspacesUpdated(old(workspaces), id, u)
      ensures activeWorkspaceId == old(activeWorkspaceId)
    {
      workspaces := SeqOps.MapWhere(workspaces, (w: Workspace) => w.id == id, w => MergeWorkspace(w, u));
    }

    /** `addFlight`: walks the workspaces in order and appends the flight to
        each one with id `wsId`, minting a new id for each (`ids(0)`,
        `ids(1)`, ...). */
    method AddFlight(wsId: string, fields: FlightFields, ids: nat -> string)
      modifies this
      ensures workspaces == WithFlightAdded(old(workspaces), wsId, fields, ids)
      ensures activeWorkspaceId == old(activeWorkspaceId)
    {
      var result: seq<Workspace> := [];
      var minted: nat := 0;
      var i := 0;
      while i < |workspaces|
        invariant 0 <= i <= |workspaces|
        invariant minted == CountWithId(workspaces[..i], wsId)
        invariant result == WithFlightAdded(workspaces[..i], wsId, fields, ids)
      {
        var w := workspaces[i];
        assert workspaces[..i + 1][..i] == workspaces[..i];
        if w.id == wsId {
          result := result + [w.(flights := w.flights + [Flight(ids(minted), fields)])];
          minted := minted + 1;
        } else {
          result := result + [w];
        }
        i := i + 1;
      }
      assert workspaces[..i] == workspaces;
      workspaces := result;
    }

    /** `removeFlight`: drops the flights with id `flightId` from the workspaces
        with id `wsId`. */
    method RemoveFlight(wsId: string, flightId: string)
      modifies this
      ensures workspaces == WithFlightRemoved(old(workspaces), wsId, flightId)
      ensures activeWorkspaceId == old(activeWorkspaceId)
    {
      workspaces := SeqOps.MapWhere(workspaces, (w: Workspace) => w.id == wsId,
        (w: Workspace) => w.(flights := SeqOps.Filter(w.flights, (f: Flight) => f.id != flightId)));
    }

    /** `updateFlight`: merges the update into the flights with id `flightId`
        of the workspaces with id `wsId`. */
    method UpdateFlight(wsId: string, flightId: string, u: FlightUpdate)
      modifies this
      ensures workspaces == WithFlightUpdated(old(workspaces), wsId, flightId, u)
      ensures activeWorkspaceId == old(activeWorkspaceId)
    {
      workspaces := SeqOps.MapWhere(workspaces, (w: Workspace) => w.id == wsId,
        (w: Workspace) => w.(flights := SeqOps.MapWhere(w.flights, (f: Flight) => f.id == flightId,
                                                         f => MergeFlight(f, u))));
    }

    /** `importWorkspace(token)`: decode, parse, check the shape, then add the
        workspace through `AddWorkspace`. On any failure nothing changes; the
        active pointer never changes. `ids(k)` is the k-th identifier minted
        during the call. */
    method ImportWorkspace(token: string, codec: JsonCodec, ids: nat -> string, now: int)
      returns (r: Result<(), StoreError>)
      modifies this
      ensures activeWorkspaceId == old(activeWorkspaceId)
      ensures Imported(token, codec, ids, now).Failure? ==>
        r == Failure(Imported(token, codec, ids, now).error) && workspaces == old(workspaces)
      ensures Imported(token, codec, ids, now).Success? ==>
        r == Success(()) && workspaces == old(workspaces) + [Imported(token, codec, ids, now).value]
    {
      var decoded := Atob(token);
      if decoded.Failure? {
        return Failure(Thrown(decoded.error));
      }
      var parsed := codec.parse(decoded.value);
      if parsed.None? {
        return Failure(Thrown(SyntaxError));
      }
      var p := parsed.value;
      if p.Null? {
        return Failure(Thrown(TypeError));
      }
      if !TruthyField(ShapeField(p, "version")) || !TruthyField(ShapeField(p, "name"))
         || !IsArrayField(ShapeField(p, "flights")) {
        return Failure(InvalidFormat);
      }
      var items := p.fields["flights"].items;
      var flights := Reminted(items, ids);
      AddWorkspace(p.fields["name"], flights, ids(|items|), now);
      r := Success(());
    }

    /** `exportWorkspace(id)`: reads the store and changes nothing. */
    method ExportWorkspace(id: string, codec: JsonCodec) returns (r: Result<string, StoreError>)
      ensures r == Export(workspaces, id, codec)
      ensures r == Failure(NotFound) <==> !HasWorkspace(workspaces, id)
    {
      var found := Find(workspaces, id);
      if found.None? {
        return Failure(NotFound);
      }
      var encoded := Btoa(codec.stringify(ShareableOf(found.value)));
      if encoded.Failure? {
        return Failure(Thrown(encoded.error));
      }
      r := Success(encoded.value);
    }
  }

  /** Sharing within one store: exporting a workspace whose name is truthy
      and whose JSON text is Latin-1, then importing the token, appends
      exactly one workspace, with that name and those flights property for
      property under fresh ids, and leaves the active pointer alone. */
  method ExportThenImport(s: Store, id: string, codec: JsonCodec, ids: nat -> string, now: int)
    returns (r: Result<(), StoreError>)
    requires HasWorkspace(s.workspaces, id)
    requires RoundTrips(codec, ShareableOf(Find(s.workspaces, id).value))
    requires Truthy(Find(s.workspaces, id).value.name)
    requires IsLatin1(codec.stringify(ShareableOf(Find(s.workspaces, id).value)))
    modifies s
    ensures r == Success(())
    ensures s.activeWorkspaceId == old(s.activeWorkspaceId)
    ensures |s.workspaces| == |old(s.workspaces)| + 1
    ensures s.workspaces[..|old(s.workspaces)|] == old(s.workspaces)
    ensures var w := Find(old(s.workspaces), id).value;
      var v := s.workspaces[|old(s.workspaces)|];
      && v.name == w.name
      && |v.flights| == |w.flights|
      && (forall k :: 0 <= k < |w.flights| ==>
            v.flights[k].fields == w.flights[k].fields && v.flights[k].id == ids(k))
      && v.id == ids(|w.flights|)
      && v.createdAt == now
  {
    var token := s.ExportWorkspace(id, codec);
    ExportImportRoundTrip(s.workspaces, id, codec, ids, now);
    r := s.ImportWorkspace(token.value, codec, ids, now);
  }
}
