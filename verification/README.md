# Flight organizer stores, modelled in Dafny

This project models the state-keeping core of the flight organizer, a
browser application where a user keeps trip plans ("workspaces"), each a
list of flights, next to a list of airlines and their mileage rates.

- **Workspace store** (`WorkspaceModel`, `WorkspaceShare`, `WorkspaceStore`).
  The store holds the list of workspaces and the active-workspace pointer.
  It adds, removes and merge-updates workspaces and the flights inside
  them. It also shares a workspace as a base64 token: `exportWorkspace`
  drops the flight identifiers and adds `version: 1`, then applies
  `JSON.stringify` and `btoa`. `importWorkspace` applies `atob` and
  `JSON.parse`, runs a shape check, and appends a new workspace with
  freshly minted identifiers.
- **Airline store** (`AirlineStore`). It appends airlines, removes them by
  identifier and merge-updates them by identifier.
- **URL-safe helpers** (`UrlSafe`). `encodeURLSafe` rewrites a `btoa` token
  into the base64url alphabet of section 5 of RFC 4648 and drops the
  padding. `decodeURLSafe` undoes this and pads the text back in a loop.
- **Base64** (`Base64`). `btoa` is section 4 of RFC 4648 over Latin-1
  characters and throws on any character above U+00FF. `atob` is the
  forgiving-base64 decode of the WHATWG Infra standard: it strips ASCII
  whitespace, drops one or two trailing `=` when the length is a multiple
  of four, and throws on a length of remainder 1 or on any character
  outside the alphabet.
- **Share link** (`ShareLink`). The sidebar puts the token into
  `?workspace=<token>`, and the workspace manager reads it back with
  `URLSearchParams`. See "## Findings".

Both stores are classes whose methods replace their fields (`modifies
this`). Each method is tied to a specification function on lists
(`WithoutWorkspace`, `Updated`, `Imported`, ...), and the lemmas beside
those functions state what the source promises.

Some runtime facilities are taken as parameters. `JSON.stringify` and
`JSON.parse` are a `JsonCodec` value; each round-trip result assumes
`RoundTrips(codec, j)` only for the one value `j` it serialises, that is,
parsing that value's text gives the value back.
`crypto.randomUUID()` is an oracle `ids: nat -> string`. One import mints
the flight identifiers `ids(0)`, `ids(1)`, ... and then the workspace
identifier `ids(n)`, in the order the source evaluates them. One
`addFlight` mints `ids(j)` for the j-th workspace with the target id, as
its `map` callback does. Where a single id is minted (`addWorkspace`,
`addAirline`), it is the parameter `freshId`. `Date.now()` is the
parameter `now`.

The store calls plain `btoa` and `atob`
(src/stores/useWorkspaceStore.ts:104 and :152), and nothing in the
repository calls `encodeURLSafe` or `decodeURLSafe`. The model follows
this: the store uses `Btoa`/`Atob`, and the URL-safe helpers are modelled
on their own.

## Model

| member | source | states |
|---|---|---|
| WorkspaceStore.Store.constructor | src/stores/useWorkspaceStore.ts:28-29 | the store starts with no workspaces and no active workspace |
| WorkspaceStore.Store.SetActiveWorkspace | src/stores/useWorkspaceStore.ts:31 | the pointer becomes the given id whether or not a workspace has it; the list is unchanged |
| WorkspaceStore.Store.AddWorkspace | src/stores/useWorkspaceStore.ts:33-43 | exactly one workspace is appended with the given name and flights, the minted id and the current time; the earlier workspaces and the pointer are unchanged |
| WorkspaceStore.Store.RemoveWorkspace | src/stores/useWorkspaceStore.ts:45-50 | the list becomes `WithoutWorkspace`; the pointer becomes null exactly when it named the removed id, and is otherwise unchanged |
| WorkspaceStore.Store.UpdateWorkspace | src/stores/useWorkspaceStore.ts:52-57 | the list becomes `WorkspacesUpdated`; the pointer is unchanged |
| WorkspaceStore.Store.AddFlight | src/stores/useWorkspaceStore.ts:59-72 | the loop over the workspaces, minting one id per matching workspace in list order, leaves the list equal to `WithFlightAdded`; the pointer is unchanged |
| WorkspaceStore.Store.RemoveFlight | src/stores/useWorkspaceStore.ts:74-86 | the list becomes `WithFlightRemoved`; the pointer is unchanged |
| WorkspaceStore.Store.UpdateFlight | src/stores/useWorkspaceStore.ts:88-100 | the list becomes `WithFlightUpdated`; the pointer is unchanged |
| WorkspaceStore.Store.ImportWorkspace | src/stores/useWorkspaceStore.ts:102-135 | the step-by-step import reports the outcome `Imported` predicts; on failure the list is unchanged, on success exactly the imported workspace is appended; the pointer never changes |
| WorkspaceStore.Store.ExportWorkspace | src/stores/useWorkspaceStore.ts:137-163 | the result is `Export` of the current list, and `NotFound` exactly when no workspace has the id; the store is not modified |
| WorkspaceStore.ExportThenImport | src/stores/useWorkspaceStore.ts:117-152 | exporting a workspace with a truthy name and Latin-1 JSON text that parses back to its shareable form, then importing the token, appends exactly one workspace with the same name and the same flight properties under the fresh ids; the pointer is unchanged |
| WorkspaceModel.Message | src/stores/useWorkspaceStore.ts:113-141 | the not-found failure reads "Workspace not found" and the failed shape check reads "Invalid workspace data format" |
| WorkspaceModel.WithoutWorkspace | src/stores/useWorkspaceStore.ts:47 | exactly the workspaces whose id differs remain, each as often as before, in their original order |
| WorkspaceModel.WorkspacesUpdated | src/stores/useWorkspaceStore.ts:54-56 | the length is kept; the update is merged into each workspace with the id; every other workspace is unchanged |
| WorkspaceModel.FlightsWithout | src/stores/useWorkspaceStore.ts:80-82 | exactly the flights whose id differs remain, each as often as before, in their original order |
| WorkspaceModel.FlightsUpdated | src/stores/useWorkspaceStore.ts:94-96 | the length is kept; the update is merged into each flight with the id; every other flight is unchanged |
| WorkspaceModel.WithFlightAdded | src/stores/useWorkspaceStore.ts:61-71 | the number of workspaces is kept; the j-th matching workspace, in list order, gets the new flight at the end of its flights under the j-th minted id; every other workspace is unchanged |
| WorkspaceModel.AddedFlightIdsDistinct | src/stores/useWorkspaceStore.ts:61-67 | with distinct minted ids, two matching workspaces never get their new flight under the same id |
| WorkspaceModel.WithFlightRemoved | src/stores/useWorkspaceStore.ts:76-85 | the number of workspaces is kept; each matching workspace loses exactly the flights with the flight id; every other workspace is unchanged |
| WorkspaceModel.WithFlightUpdated | src/stores/useWorkspaceStore.ts:90-99 | the number of workspaces is kept; in each matching workspace the update is merged into the matching flights; every other workspace is unchanged |
| WorkspaceModel.UnknownWorkspaceIsNoOp | src/stores/useWorkspaceStore.ts:45-100 | remove, update, add-flight, remove-flight and update-flight addressed to an unknown workspace id leave the list identical |
| WorkspaceModel.UnknownFlightIsNoOp | src/stores/useWorkspaceStore.ts:80-96 | removing or updating an unknown flight id leaves a workspace's flights identical |
| WorkspaceModel.RemoveWorkspaceIdempotent | src/stores/useWorkspaceStore.ts:47 | removing a workspace id a second time changes nothing |
| WorkspaceModel.RemoveUndoesAddWorkspace | src/stores/useWorkspaceStore.ts:33-50 | with an id not yet in use, removing the workspace just appended restores the list |
| WorkspaceModel.RemoveUndoesAddFlight | src/stores/useWorkspaceStore.ts:59-86 | when at most one workspace has the id and the first minted flight id is not yet in use there, removing the flight just added restores the list |
| WorkspaceModel.FlightsWithoutAppended | src/stores/useWorkspaceStore.ts:66-82 | removing a flight just appended to flights that lack its id gives the flights back |
| WorkspaceModel.MergeKeepsFlightShape | src/types/flight.ts:1-12 | merging a typed partial update into a typed flight gives a typed flight |
| WorkspaceShare.Find | src/stores/useWorkspaceStore.ts:138 | there is no result exactly when no workspace has the id; a result has that id and is the first workspace in the list that has it |
| WorkspaceShare.ShareableOf | src/stores/useWorkspaceStore.ts:145-150 | the shareable object has exactly the keys name, flights and version; the name is kept, the version is 1, and the k-th flight object holds exactly the k-th flight's properties, with no `id` |
| WorkspaceShare.Export | src/stores/useWorkspaceStore.ts:137-163 | `NotFound` exactly for an unknown id; a token decodes to the JSON text of the shareable form; the only other failure is `btoa`'s `InvalidCharacterError` on text above U+00FF |
| WorkspaceShare.PassesShapeCheck | src/stores/useWorkspaceStore.ts:108-114 | only an object with truthy `version`, truthy `name` and an array `flights` passes |
| WorkspaceShare.Reminted | src/stores/useWorkspaceStore.ts:119-122 | one flight per imported element, in order: the k-th gets the k-th minted id and the element's spread properties other than `id` |
| WorkspaceShare.Imported | src/stores/useWorkspaceStore.ts:102-135 | an `atob` failure, a parse failure and a `null` value each give the thrown exception; a failed shape check, and only that, gives `InvalidFormat`; the import succeeds exactly when the parsed value passes the shape check, whatever the flight elements are, and then carries the parsed name, the reminted flights, the id minted last and the time |
| WorkspaceShare.ImportOfShareable | src/stores/useWorkspaceStore.ts:102-123 | a token that decodes to the JSON text of a workspace's shareable form, when that text parses back to the form, imports with that name and those flight properties under the fresh ids |
| WorkspaceShare.ExportImportRoundTrip | src/stores/useWorkspaceStore.ts:117-152 | exporting a workspace with a truthy name and Latin-1 text that parses back to its shareable form succeeds, and importing its token gives the same name and flight properties under the fresh ids |
| WorkspaceShare.ImportRejectsForeignCharacter | src/stores/useWorkspaceStore.ts:104 | a token holding a character outside the alphabet, `=` and whitespace fails with `InvalidCharacterError` |
| WorkspaceShare.ImportRejectsMissingFields | src/stores/useWorkspaceStore.ts:108-113 | well-formed base64 of the JSON text of an object without `version`, when that text parses back to the object, is refused as invalid format |
| JsValues.IndexedEntries | src/stores/useWorkspaceStore.ts:120 | spreading an array or string keys each element by its decimal index, and has no other key |
| SeqOps.Filter | src/stores/useWorkspaceStore.ts:47 | the result is no longer than the list, and an entry is in it exactly when it is in the list and satisfies the predicate |
| SeqOps.FilterExactly | src/stores/useWorkspaceStore.ts:47 | a filter keeps the selected entries in their original order, each exactly as often as in the list |
| SeqOps.MapWhere | src/stores/useWorkspaceStore.ts:54-56 | the length is kept; the selected entries are rewritten and the others are unchanged |
| SeqOps.FilterAppend | src/stores/useAirlineStore.ts:25 | filtering a concatenation filters each part |
| AirlineStore.Store.constructor | src/stores/useAirlineStore.ts:15 | the store starts with no airlines |
| AirlineStore.Store.AddAirline | src/stores/useAirlineStore.ts:16-22 | the list becomes `Added` |
| AirlineStore.Store.RemoveAirline | src/stores/useAirlineStore.ts:23-26 | the list becomes `Removed`, and an unknown id leaves it unchanged |
| AirlineStore.Store.UpdateAirline | src/stores/useAirlineStore.ts:27-32 | the list becomes `Updated`, and an unknown id leaves it unchanged |
| AirlineStore.Added | src/stores/useAirlineStore.ts:18-21 | exactly one airline is appended with the given name, rate and minted id; the earlier airlines are unchanged |
| AirlineStore.Removed | src/stores/useAirlineStore.ts:25 | exactly the airlines whose id differs remain, each as often as before, in their original order |
| AirlineStore.Updated | src/stores/useAirlineStore.ts:29-31 | the length is kept; the update is merged into each airline with the id; the others are unchanged |
| AirlineStore.RemoveAbsent | src/stores/useAirlineStore.ts:23-26 | removing an unknown id leaves the list identical |
| AirlineStore.UpdateAbsent | src/stores/useAirlineStore.ts:27-32 | updating an unknown id leaves the list identical |
| AirlineStore.RemoveUndoesAdd | src/stores/useAirlineStore.ts:16-26 | with an id not yet in use, removing the airline just added restores the list |
| Base64.Btoa | src/stores/useWorkspaceStore.ts:152 | fails, with `InvalidCharacterError`, exactly when some character is above U+00FF; otherwise whole groups of four alphabet or `=` characters |
| Base64.Atob | src/stores/useWorkspaceStore.ts:104 | the only failure is `InvalidCharacterError`, and the decoded text is Latin-1 |
| Base64.ForgivingDecodeOfDigits | src/stores/useWorkspaceStore.ts:104 | after whitespace removal, alphabet characters and at most two `=` decode to exactly the bytes those characters carry, and do decode when the padding completes a group and no lone character is left |
| Base64.EncodeDigits | src/stores/useWorkspaceStore.ts:152 | the unpadded encoding is made of alphabet characters only; its length is stated by `EncodeDigitsLength` |
| Base64.EncodeDigitsLength | src/stores/useWorkspaceStore.ts:152 | n bytes encode to four characters per three bytes, plus two or three for a final one or two |
| Base64.PaddedEncoding | src/stores/useWorkspaceStore.ts:152 | the unpadded encoding followed by its `=` padding is a whole number of groups of four alphabet or `=` characters |
| Base64.DecodeEncodeDigits | src/stores/useWorkspaceStore.ts:152 | decoding the unpadded encoding gives back the bytes |
| Base64.DecodeDigitsLength | src/stores/useWorkspaceStore.ts:104 | n alphabet characters decode to three bytes per four, plus one or two for a final two or three |
| Base64.DropPadding | src/stores/useWorkspaceStore.ts:104 | at most two characters are dropped from the end, all of them `=`, and what remains is a prefix |
| Base64.DecodeUnpadded | src/stores/useWorkspaceStore.ts:104 | once padding is dropped, decoding fails only with `InvalidCharacterError`, and succeeds only on alphabet characters whose count is not 1 more than a multiple of four |
| Base64.DecodeJoin | src/stores/useWorkspaceStore.ts:104 | a leading group followed by further alphabet characters decodes to the group's bytes followed by the rest's |
| Base64.AtobBtoa | src/stores/useWorkspaceStore.ts:104-152 | `atob(btoa(s)) == s` for every Latin-1 `s` |
| Base64.AtobRejectsForeignCharacter | src/stores/useWorkspaceStore.ts:104 | a character that is not alphabet, `=` or ASCII whitespace makes `atob` throw |
| UrlSafe.ReplaceAll | src/lib/utils.ts:9 | each occurrence of one character is replaced and nothing else changes; none of the old character is left |
| UrlSafe.StripTrailingEquals | src/lib/utils.ts:9 | the result is a prefix that does not end in `=`, and only `=` was removed |
| UrlSafe.EncodeURLSafe | src/lib/utils.ts:8-10 | fails exactly when `btoa` does, with `btoa`'s error; a result holds only base64url characters and no `+`, `/` or `=` |
| UrlSafe.Repadded | src/lib/utils.ts:14-16 | the re-padded text has a length divisible by four, and only `=` was appended, at most three |
| UrlSafe.ToStandardBase64 | src/lib/utils.ts:13-16 | the substituted and re-padded text has a length divisible by four |
| UrlSafe.DecodeURLSafe | src/lib/utils.ts:12-18 | the reassigning loop computes `atob` of the substituted and re-padded text |
| UrlSafe.SubstitutionInverse | src/lib/utils.ts:9-13 | the decoder's substitution undoes the encoder's on every string over the base64 alphabet |
| UrlSafe.EncodeURLSafeUnpadded | src/lib/utils.ts:8-10 | for Latin-1 text the URL-safe token is the unpadded encoding with `+` written `-` and `/` written `_` |
| UrlSafe.StripPaddingRun | src/lib/utils.ts:9 | stripping trailing `=` from a string without one, followed by `=` characters, gives that string |
| UrlSafe.ToStandardOfEncode | src/lib/utils.ts:8-16 | substituting back and re-padding a URL-safe token gives the `btoa` token |
| UrlSafe.UrlSafeRoundTrip | src/lib/utils.ts:8-18 | `decodeURLSafe(encodeURLSafe(s)) == s` for every Latin-1 `s` |
| ShareLink.FormDecode | src/components/flights/workspace-manager.tsx:33-34 | reading a query value without percent escapes turns each `+` into a space and keeps every other character |
| ShareLink.TextReadFromLink | src/components/flights/workspace-manager.tsx:33-37 | reading a link fails only with `InvalidCharacterError` and gives Latin-1 text; a token without `+` is read exactly as `atob` reads it |
| ShareLink.DecodedDigitsShrink | src/components/flights/workspace-manager.tsx:33-37 | form decoding alphabet characters that hold a `+`, then removing whitespace, leaves fewer characters, all in the alphabet |
| ShareLink.PlusReadAsSpace | src/components/flights/workspace-manager.tsx:33-37 | read from the query, a `btoa` token holding a `+` comes out as fewer alphabet characters followed by the same padding |
| ShareLink.FewerDigitsFewerBytes | src/stores/useWorkspaceStore.ts:104 | fewer decodable alphabet characters decode to fewer bytes |
| ShareLink.PlusCorruptsLink | src/components/layout/sidebar.tsx:60 | whenever the `btoa` token holds a `+`, the text read back from the link differs from the text shared |
| ShareLink.PlusCorruptsThreeBytes | src/components/layout/sidebar.tsx:60 | `btoa(">>>")` is `Pj4+`, and the link reads it back as `>>` |
| ShareLink.LinkToken | src/lib/utils.ts:8-10 | the corrected link token exists exactly for Latin-1 text and holds no `+`, `/`, `=` or `%` |
| ShareLink.TextReadFromUrlSafeLink | src/lib/utils.ts:12-18 | the corrected reading fails only with `InvalidCharacterError` and gives Latin-1 text; a value without `+`, as every URL-safe token is, is read exactly as `decodeURLSafe` reads it |
| ShareLink.LinkTokenReadsAsStandard | src/lib/utils.ts:8-18 | a URL-safe token comes out of the query and re-padding as the `btoa` token |
| ShareLink.UrlSafeLinkRoundTrip | src/lib/utils.ts:8-18 | with the corrected link, every Latin-1 text reads back unchanged |
| ShareLink.LinkImportRoundTrip | src/components/flights/workspace-manager.tsx:33-37 | with the corrected link, opening the link of a shared workspace whose JSON text parses back to its shareable form imports its name and flight properties under the fresh ids |

## Left out

- The React components, toasts, dialogs, clipboard writes and `history.replaceState` are not modelled. Only the value that the link puts into and takes out of the query is modelled, in `ShareLink`.
- Persistence through the `persist` middleware and local storage is I/O and is not modelled. Each store starts from its empty initial state.
- `JSON.stringify` and `JSON.parse` are a codec parameter, not a model of JSON text. `JSON.stringify` of values JSON cannot hold (`undefined`, functions) is not modelled.
- `crypto.randomUUID()` and `Date.now()` are parameters. The model does not assume minted ids are distinct; the lemmas that need a fresh id require it.
- JavaScript numbers are modelled as exact reals: NaN, the infinities, negative zero and rounding are not modelled.
- Dafny characters are Unicode scalar values, while JavaScript strings are UTF-16 code units. `btoa` throws on both forms of any character above U+00FF, so export and `atob` agree with the source. Lone surrogates are not modelled.
- JsValues.Spread: spreading a string gives one property per Unicode scalar value, while JavaScript gives one per UTF-16 code unit. An imported flight element that is a string holding a character above U+FFFF (JSON `"\ud83d\ude00"`) gets two properties in the source and one in the model.
- WorkspaceModel.RemoveUndoesAddFlight: stated only for a list where at most one workspace has the id. With several, each gets its flight under its own minted id, and removing one id leaves the other new flights in place, as in the source.
- WorkspaceModel.Message: for a caught exception it gives the exception's name, not the runtime's message text, which the engine chooses.
- Base64.Atob: its contract states only the failure kind and that the output is Latin-1. What it decodes is stated by `ForgivingDecodeOfDigits`, `AtobBtoa`, `AtobRejectsForeignCharacter` and `DecodeDigitsLength`.
- WorkspaceStore.Store.AddWorkspace and AirlineStore.Store.AddAirline take the name (and flights, or rate) as separate arguments. Extra properties a caller might spread into the new entry are not modelled.
- Flights are a map of their non-identifier properties. The declared flight type is the predicate `IsFlightShape`, which the store does not enforce, because import accepts any JSON elements.
- ShareLink.FormDecode: percent escapes are not modelled, and its input may not hold `%`. Tokens over the base64 and base64url alphabets never hold one.
- src/types/airline.ts is not part of this model. The airline's fields (`id`, `name`, `pricePerThousandMiles`) are taken from the airline dialog and the store's usage.
- Price estimation from miles and an airline's rate, and its currency formatting, live in form components and use floating point. They are not modelled.
- `cn` in src/lib/utils.ts only merges CSS class names and is not modelled.

## Findings

| source | as written | input that shows it | evidently intended | confidence | as-written member | corrected member |
|---|---|---|---|---|---|---|
| src/components/layout/sidebar.tsx:60 | the `btoa` token goes unescaped into `?workspace=`, and src/components/flights/workspace-manager.tsx:33-34 reads it with `URLSearchParams.get`, which turns every `+` into a space; `atob` then drops the space, so the text read back is shorter and differs; the import then usually fails with a decode or parse error, and can bring in different data | a workspace whose JSON text encodes with a `+`; a small ASCII case is the text `>>>`, whose token `Pj4+` reads back as `>>` | the link carries the token unchanged, as the URL-safe helpers in src/lib/utils.ts allow: their tokens hold no `+` | high; not executed | ShareLink.PlusCorruptsLink | ShareLink.UrlSafeLinkRoundTrip |
