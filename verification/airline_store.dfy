/** The airline store: a list of airlines, each with the rate that turns a
    mileage cost into a price, edited by append, remove-by-id and
    merge-update-by-id. */
module AirlineStore {
  import opened Wrappers
  import SeqOps

  /** An airline and its price per thousand miles. */
  datatype Airline = Airline(id: string, name: string, pricePerThousandMiles: real)

  /** `Partial<Airline>`: the fields an update sets, `None` for those it leaves. */
  datatype AirlineUpdate = AirlineUpdate(
    id: Option<string>,
    name: Option<string>,
    pricePerThousandMiles: Option<real>)

  /** `{ ...airline, ...updates }`: the update's fields win. */
  function Merge(a: Airline, u: AirlineUpdate): Airline
  {
    Airline(
      if u.id.Some? then u.id.value else a.id,
      if u.name.Some? then u.name.value else a.name,
      if u.pricePerThousandMiles.Some? then u.pricePerThousandMiles.value else a.pricePerThousandMiles)
  }

  /** True when some airline in the list has identifier `id`. */
  predicate HasId(airlines: seq<Airline>, id: string)
  {
    exists a :: a in airlines && a.id == id
  }

  /** The list after `addAirline`: one new entry at the end. */
  function Added(airlines: seq<Airline>, name: string, rate: real, freshId: string): (r: seq<Airline>)
    ensures |r| == |airlines| + 1 && r[..|airlines|] == airlines
    ensures r[|airlines|] == Airline(freshId, name, rate)
  {
    airlines + [Airline(freshId, name, rate)]
  }

  /** The list after `removeAirline`: exactly the airlines whose id differs,
      in their original order. */
  function Removed(airlines: seq<Airline>, id: string): (r: seq<Airline>)
    ensures SeqOps.IsSubsequence(r, airlines)
    ensures forall a :: a in r <==> a in airlines && a.id != id
    ensures forall a :: multiset(r)[a] == if a.id != id then multiset(airlines)[a] else 0
  {
    SeqOps.FilterExactly(airlines, (a: Airline) => a.id != id);
    SeqOps.Filter(airlines, (a: Airline) => a.id != id)
  }

  /** The list after `updateAirline`: same length, the update merged into the
      airlines with identifier `id` and every other airline untouched. */
  function Updated(airlines: seq<Airline>, id: string, u: AirlineUpdate): (r: seq<Airline>)
    ensures |r| == |airlines|
    ensures forall i :: 0 <= i < |airlines| && airlines[i].id == id ==> r[i] == Merge(airlines[i], u)
    ensures forall i :: 0 <= i < |airlines| && airlines[i].id != id ==> r[i] == airlines[i]
  {
    SeqOps.MapWhere(airlines, (a: Airline) => a.id == id, a => Merge(a, u))
  }

  /** Removing an identifier no airline has leaves the list identical. */
  lemma {:induction false} RemoveAbsent(airlines: seq<Airline>, id: string)
    requires !HasId(airlines, id)
    ensures Removed(airlines, id) == airlines
  {
    SeqOps.FilterKeepsAll(airlines, (a: Airline) => a.id != id);
  }

  /** Updating an identifier no airline has leaves the list identical. */
  lemma {:induction false} UpdateAbsent(airlines: seq<Airline>, id: string, u: AirlineUpdate)
    requires !HasId(airlines, id)
    ensures Updated(airlines, id, u) == airlines
  {
    SeqOps.MapWhereMissesAll(airlines, (a: Airline) => a.id == id, a => Merge(a, u));
  }

  /** With an identifier not yet in use, removing the airline just added
      restores the list. */
  lemma {:induction false} RemoveUndoesAdd(airlines: seq<Airline>, name: string, rate: real, freshId: string)
    requires !HasId(airlines, freshId)
    ensures Removed(Added(airlines, name, rate, freshId), freshId) == airlines
  {
    var keep := (a: Airline) => a.id != freshId;
    SeqOps.FilterAppend(airlines, [Airline(freshId, name, rate)], keep);
    SeqOps.FilterKeepsAll(airlines, keep);
    assert SeqOps.Filter([Airline(freshId, name, rate)], keep) == [];
  }

  /** The store object: its one field is replaced by every mutator. */
  class Store {
    var airlines: seq<Airline>

    /** The persisted store starts empty. */
    constructor ()
      ensures airlines == []
    {
      airlines := [];
    }

    /** `addAirline`: appends the airline under the identifier minted for it
        (`crypto.randomUUID()`, passed in as `freshId`). */
    method AddAirline(name: string, rate: real, freshId: string)
      modifies this
      ensures airlines == Added(old(airlines), name, rate, freshId)
    {
      airlines := airlines + [Airline(freshId, name, rate)];
    }

    /** `removeAirline`: keeps the airlines whose identifier differs. */
    method RemoveAirline(id: string)
      modifies this
      ensures airlines == Removed(old(airlines), id)
      ensures !HasId(old(airlines), id) ==> airlines == old(airlines)
    {
      airlines := SeqOps.Filter(airlines, (a: Airline) => a.id != id);
      if !HasId(old(airlines), id) {
        RemoveAbsent(old(airlines), id);
      }
    }

    /** `updateAirline`: merges the update into the airlines with that identifier. */
    method UpdateAirline(id: string, u: AirlineUpdate)
      modifies this
      ensures airlines == Updated(old(airlines), id, u)
      ensures !HasId(old(airlines), id) ==> airlines == old(airlines)
    {
      airlines := SeqOps.MapWhere(airlines, (a: Airline) => a.id == id, a => Merge(a, u));
      if !HasId(old(airlines), id) {
        UpdateAbsent(old(airlines), id, u);
      }
    }
  }
}
