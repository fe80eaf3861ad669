/** The share codec of the workspace store: `exportWorkspace` turns a
    workspace, without its identifiers, into a base64 token of its JSON text;
    `importWorkspace` reads a token back into a new workspace with freshly
    minted identifiers. */
module WorkspaceShare {
  import opened Wrappers
  import opened JsValues
  import opened Base64
  import opened WorkspaceModel

  /** The position of the first workspace with identifier `id`, or the
      length of the list when there is none. */
  function FirstIndex(ws: seq<Workspace>, id: string): (i: nat)
    ensures i <= |ws|
    ensures forall j :: 0 <= j < i ==> ws[j].id != id
    ensures i < |ws| ==> ws[i].id == id
    decreases |ws|
  {
    if ws == [] || ws[0].id == id then 0 else 1 + FirstIndex(ws[1..], id)
  }

  /** `workspaces.find(w => w.id === id)`: the first workspace with that id. */
  function Find(ws: seq<Workspace>, id: string): (r: Option<Workspace>)
    ensures r.None? <==> !HasWorkspace(ws, id)
    ensures r.Some? ==> r.value.id == id && r.value in ws
    ensures r.Some? ==> exists i :: 0 <= i < |ws| && ws[i] == r.value && forall j :: 0 <= j < i ==> ws[j].id != id
  {
    var i := FirstIndex(ws, id);
    if i < |ws| then Some(ws[i]) else None
  }

  /** The shareable form of a workspace: its name, its flights without their
      identifiers (every other property verbatim, in the same order) and
      `version: 1`. */
  function ShareableOf(w: Workspace): (j: Json)
    ensures j.Obj? && j.fields.Keys == {"name", "flights", "version"}
    ensures j.fields["name"] == w.name && j.fields["version"] == Num(1.0)
    ensures j.fields["flights"].Arr? && |j.fields["flights"].items| == |w.flights|
    ensures forall k :: 0 <= k < |w.flights| ==> j.fields["flights"].items[k] == Obj(w.flights[k].fields)
    ensures forall k :: 0 <= k < |w.flights| ==> "id" !in j.fields["flights"].items[k].fields
  {
    var items := seq(|w.flights|, k requires 0 <= k < |w.flights| => Obj(w.flights[k].fields));
    Obj(map["name" := w.name, "flights" := Arr(items), "version" := Num(1.0)])
  }

  /** `exportWorkspace(id)`: `NotFound` for an unknown id; otherwise the
      `btoa` of the JSON text of the shareable form, or the exception `btoa`
      throws when that text has a character above U+00FF. */
  function Export(ws: seq<Workspace>, id: string, codec: JsonCodec): (r: Result<string, StoreError>)
    ensures r == Failure(NotFound) <==> !HasWorkspace(ws, id)
    ensures r.Success? ==> Atob(r.value) == Success(codec.stringify(ShareableOf(Find(ws, id).value)))
    ensures r.Failure? && HasWorkspace(ws, id) ==>
      r.error == Thrown(InvalidCharacterError) && !IsLatin1(codec.stringify(ShareableOf(Find(ws, id).value)))
  {
    match Find(ws, id)
    case None => Failure(NotFound)
    case Some(w) =>
      var text := codec.stringify(ShareableOf(w));
      match Btoa(text)
      case Failure(e) => Failure(Thrown(e))
      case Success(token) =>
        AtobBtoa(text);
        Success(token)
  }

  /** `parsed.flights` is an array. */
  predicate IsArrayField(v: Option<Json>)
  {
    v.Some? && v.value.Arr?
  }

  /** The shape check of `importWorkspace` on a parsed value other than `null`:
      truthy `version`, truthy `name`, array `flights`. Only an object can pass. */
  predicate PassesShapeCheck(parsed: Json)
    requires !parsed.Null?
    ensures PassesShapeCheck(parsed) ==> parsed.Obj?
  {
    TruthyField(ShapeField(parsed, "version"))
      && TruthyField(ShapeField(parsed, "name"))
      && IsArrayField(ShapeField(parsed, "flights"))
  }

  /** `parsed.flights.map(flight => ({ ...flight, id: crypto.randomUUID() }))`,
      where `ids(k)` is the k-th identifier minted. */
  function Reminted(items: seq<Json>, ids: nat -> string): (fs: seq<Flight>)
    ensures |fs| == |items|
    ensures forall k :: 0 <= k < |items| ==> fs[k].id == ids(k) && fs[k].fields == Spread(items[k]) - {"id"}
  {
    seq(|items|, k requires 0 <= k < |items| => Flight(ids(k), Spread(items[k]) - {"id"}))
  }

  /** What `importWorkspace(token)` adds to the store, or why it adds nothing:
      `atob`, `JSON.parse` and reading a property of `null` throw; a failed
      shape check is `InvalidFormat`; otherwise a new workspace with the
      imported name, the imported flights under fresh ids `ids(0)`, ...,
      and its own id minted after them. */
  function Imported(token: string, codec: JsonCodec, ids: nat -> string, now: int)
    : (r: Result<Workspace, StoreError>)
    ensures Atob(token).Failure? ==> r == Failure(Thrown(InvalidCharacterError))
    ensures Atob(token).Success? && codec.parse(Atob(token).value).None? ==> r == Failure(Thrown(SyntaxError))
    ensures Atob(token).Success? && codec.parse(Atob(token).value) == Some(Null) ==> r == Failure(Thrown(TypeError))
    ensures r.Success? || r.error.Thrown? || r.error == InvalidFormat
    ensures r.Success? <==>
      Atob(token).Success? && codec.parse(Atob(token).value).Some? &&
      var p := codec.parse(Atob(token).value).value; !p.Null? && PassesShapeCheck(p)
    ensures r == Failure(InvalidFormat) <==>
      Atob(token).Success? && codec.parse(Atob(token).value).Some? &&
      var p := codec.parse(Atob(token).value).value; !p.Null? && !PassesShapeCheck(p)
    ensures r.Success? ==>
      var p := codec.parse(Atob(token).value).value;
      && p.Obj? && PassesShapeCheck(p)
      && r.value.name == p.fields["name"]
      && r.value.flights == Reminted(p.fields["flights"].items, ids)
      && r.value.id == ids(|p.fields["flights"].items|)
      && r.value.createdAt == now
  {
    match Atob(token)
    case Failure(e) => Failure(Thrown(e))
    case Success(decoded) =>
      match codec.parse(decoded)
      case None => Failure(Thrown(SyntaxError))
      case Some(parsed) =>
        if parsed.Null? then Failure(Thrown(TypeError))
        else if !PassesShapeCheck(parsed) then Failure(InvalidFormat)
        else
          var items := parsed.fields["flights"].items;
          Success(Workspace(ids(|items|), parsed.fields["name"], Reminted(items, ids), now))
  }

  /** A token that decodes to the JSON text of a workspace's shareable form
      imports as that workspace's name and flights under fresh ids. */
  lemma {:induction false} ImportOfShareable(w: Workspace, token: string, codec: JsonCodec, ids: nat -> string, now: int)
    requires RoundTrips(codec, ShareableOf(w))
    requires Truthy(w.name)
    requires Atob(token) == Success(codec.stringify(ShareableOf(w)))
    ensures Imported(token, codec, ids, now).Success?
    ensures var v := Imported(token, codec, ids, now).value;
      && v.name == w.name
      && |v.flights| == |w.flights|
      && (forall k :: 0 <= k < |w.flights| ==> v.flights[k].fields == w.flights[k].fields && v.flights[k].id == ids(k))
      && v.id == ids(|w.flights|)
      && v.createdAt == now
  {
    var shareable := ShareableOf(w);
    var text := codec.stringify(shareable);
    assert codec.parse(text) == Some(shareable);
    assert PassesShapeCheck(shareable);
    var items := shareable.fields["flights"].items;
    assert Imported(token, codec, ids, now) == Success(Workspace(ids(|items|), w.name, Reminted(items, ids), now));
    var v := Imported(token, codec, ids, now).value;
    forall k | 0 <= k < |w.flights| ensures v.flights[k].fields == w.flights[k].fields {
      assert items[k] == Obj(w.flights[k].fields);
      assert Spread(items[k]) == w.flights[k].fields;
    }
  }

  /** Exporting a workspace whose name is truthy and whose JSON text is
      Latin-1, then importing the token, gives a workspace with the same name
      and the same flights property for property, under the fresh ids. */
  lemma {:induction false} ExportImportRoundTrip(ws: seq<Workspace>, id: string, codec: JsonCodec, ids: nat -> string, now: int)
    requires HasWorkspace(ws, id)
    requires RoundTrips(codec, ShareableOf(Find(ws, id).value))
    requires Truthy(Find(ws, id).value.name)
    requires IsLatin1(codec.stringify(ShareableOf(Find(ws, id).value)))
    ensures Export(ws, id, codec).Success?
    ensures var w := Find(ws, id).value;
      var r := Imported(Export(ws, id, codec).value, codec, ids, now);
      && r.Success?
      && r.value.name == w.name
      && |r.value.flights| == |w.flights|
      && (forall k :: 0 <= k < |w.flights| ==>
            r.value.flights[k].fields == w.flights[k].fields && r.value.flights[k].id == ids(k))
      && r.value.id == ids(|w.flights|)
      && r.value.createdAt == now
  {
    var w := Find(ws, id).value;
    assert Export(ws, id, codec).Success?;
    ImportOfShareable(w, Export(ws, id, codec).value, codec, ids, now);
  }

  /** A token with a character that is neither base64, padding nor ASCII
      whitespace is refused before anything is parsed. */
  lemma {:induction false} ImportRejectsForeignCharacter(token: string, i: nat, codec: JsonCodec, ids: nat -> string, now: int)
    requires i < |token| && !IsDigit(token[i]) && token[i] != '=' && !IsAsciiWhitespace(token[i])
    ensures Imported(token, codec, ids, now) == Failure(Thrown(InvalidCharacterError))
  {
    AtobRejectsForeignCharacter(token, i);
  }

  /** Well-formed base64 of JSON text for an object without `version`,
      `name` and `flights`, such as `{"foo":1}`, is refused as invalid format. */
  lemma {:induction false} ImportRejectsMissingFields(fields: map<string, Json>, codec: JsonCodec, ids: nat -> string, now: int)
    requires RoundTrips(codec, Obj(fields))
    requires "version" !in fields
    requires IsLatin1(codec.stringify(Obj(fields)))
    ensures Imported(Btoa(codec.stringify(Obj(fields))).value, codec, ids, now) == Failure(InvalidFormat)
  {
    AtobBtoa(codec.stringify(Obj(fields)));
  }
}
