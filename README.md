# KML mission ingestion, modelled in Dafny

This project models the mission-geometry ingestion path of the drone
controller backend. A client uploads a KML document. The server finds the
first polygon's outer boundary in the parsed XML tree. It turns the
boundary's `coordinates` text into an ordered list of `{lat, lon, alt}`
vertices and stores a mission holding that polygon. A mission can later
be fetched by its id.

Modules, one per component of the source:

- `Wrappers` (`wrappers.dfy`): `Option` and `Result`. A `Result`'s
  failure carries the message of the error the JavaScript code throws.
- `KmlTree` (`kml_tree.dfy`): the generic parsed-XML tree `Node` (null,
  text, array, object with keys in enumeration order) and the polygon
  locator. `Traverse` is the recursive `traverse` closure, written as a
  method with a loop over the children. It is proved equal to the
  specification function `Find`. `Find` is in turn proved equal to an
  independent definition: the verdict of the first deciding node of the
  tree's pre-order listing (`FirstDecision(PreOrder(n))`). A node decides
  when its own boundary chain yields a truthy value, or when it is an
  object with its own `hasOwnProperty` entry, whose loop throws.
- `Coordinates` (`coordinates.dfy`): `trim()`, `split(/\s+/)`,
  `split(',')` and the map/filter that turns tokens into vertices. The
  tuple syntax is that of the `kml:coordinates` element of OGC KML 2.2
  (OGC 07-147r2): `lon,lat[,alt]` tuples separated by whitespace.
  `parseFloat` is kept symbolic as `ParseFloat(text)`, so the model
  records which field each number came from and never evaluates it.
- `KmlParser` (`kml_parser.dfy`): `extractPolygonCoordinates` and
  `parseKML`. The XML parser is a function parameter
  `xmlParse: string -> Result<Node>`.
- `MissionController` (`mission_controller.dfy`): `uploadKML` and
  `getMission`. The temporary upload file is a class (`UploadedFile`) that
  records whether it is on disk and counts deletions and reads. The
  mission table is a class (`MissionStore`) holding a `map<int, Mission>`
  and an auto-increment counter.

Behaviour of the code worth knowing, each point proved in the model:

- Malformed XML has no response of its own. Whatever the XML parser
  throws reaches the generic 500 branch with its own message
  (`DecodeDocument`, `ErrorResponse`).
- The polygon extracted is the first in the parsed tree's pre-order,
  which need not be the first in the document. A placemark that repeats
  an earlier sibling's name joins that sibling's array, and so is
  searched ahead of any folder between them
  (`KmlTree.ExampleRepeatedNameAheadOfFolder`).
- Only the first polygon in pre-order is extracted, and polygons in
  separate placemarks behave that way. Two `Polygon` elements under one
  parent, however, arrive from the XML parser as an array, which has no
  `outerBoundaryIs` property, so neither of them is found. The search
  goes on past them (`KmlTree.ExampleSiblingPolygonsNotFound`).
- Three inputs the code does not classify also give a 500. In
  `uploadKML`, a `coordinates` value that is an array or an object makes
  `trim` throw a TypeError (`KmlParser.DecodeNonText`). Also in
  `uploadKML`, an element named `hasOwnProperty` met by the search
  before any polygon makes `obj.hasOwnProperty(key)` throw a TypeError
  (`KmlTree.ExampleShadowedObjectThrows`, `KmlParser.DecodeShadowed`).
  In `getMission`, a non-numeric id makes the store query fail
  (`MissionController.GetMission`). Malformed XML, a failed read of the
  upload and a store fault give a 500 as well.
- Non-numeric coordinate fields are passed to `parseFloat`, which gives
  NaN. The model keeps every field symbolic and rejects nothing beyond
  what the code rejects.

## Model

| member | source | states |
|---|---|---|
| `KmlTree.IsObject` | DroneController/services/kmlParser.js:25 | The value passes the early-return test: it is truthy and `typeof` gives `'object'`. Only arrays and objects are searched; null and text are not. |
| `KmlTree.Truthy` | DroneController/services/kmlParser.js:27 | JavaScript truthiness of a parsed value: null and the empty text are falsy, every other text, array and object is truthy. |
| `KmlTree.Lookup` | DroneController/services/kmlParser.js:27 | A property read on an object gives the value of the first entry with that key, or nothing when no entry has it. |
| `KmlTree.Get` | DroneController/services/kmlParser.js:27 | One `?.` step: the value under a key of an object, and nothing on null, text or an array. |
| `KmlTree.Path` | DroneController/services/kmlParser.js:27 | The optional chain: `?.` steps along the keys in order, nothing as soon as one step gives nothing. |
| `KmlTree.Boundary` | DroneController/services/kmlParser.js:27 | The value of `obj.Polygon?.outerBoundaryIs?.LinearRing?.coordinates`. |
| `KmlTree.Matches` | DroneController/services/kmlParser.js:25-27 | The node is an array or an object and its boundary chain yields a truthy value. |
| `KmlTree.Shadowed` | DroneController/services/kmlParser.js:33 | The node is an object with its own `hasOwnProperty` entry, so the call `obj.hasOwnProperty(key)` throws. |
| `KmlTree.ChildAt` | DroneController/services/kmlParser.js:32-34 | Each value that `for (const key in obj)` visits is strictly smaller than `obj`, so the recursion terminates. |
| `KmlTree.Traverse` | DroneController/services/kmlParser.js:24-38 | The recursive walk leaves in `coordinatesText` exactly what the search `Find` returns, or throws what it throws. It checks the node's own `Polygon.outerBoundaryIs.LinearRing.coordinates` chain first, then each child in key order, and stops at the first truthy value. On an object with its own `hasOwnProperty` entry the first `obj.hasOwnProperty(key)` call throws a TypeError. |
| `KmlTree.Find` | DroneController/services/kmlParser.js:24-38 | The only error the search can end with is the TypeError of calling a parsed `hasOwnProperty` entry. |
| `KmlTree.FindFrom` | DroneController/services/kmlParser.js:32-37 | The `for…in` loop from the i-th child on: the first child search that does not end with `null` decides. Its only error is the `hasOwnProperty` TypeError. |
| `KmlTree.PreOrder` | DroneController/services/kmlParser.js:32-37 | The pre-order listing starts with the node itself. |
| `KmlTree.FirstDecision` | DroneController/services/kmlParser.js:27-35 | The result is `null` exactly when no listed node decides. When the k-th node is the first that decides, the result is its verdict: its boundary if it matches, the TypeError otherwise. |
| `KmlTree.FirstDecisionFound` | DroneController/services/kmlParser.js:27-35 | A result other than `null` is the verdict of some deciding node with no deciding node before it. |
| `KmlTree.FindIsFirstDecision` | DroneController/services/kmlParser.js:24-40 | The search the code runs ends with the verdict of the first deciding node of the whole tree in pre-order. |
| `KmlTree.NotFoundIff` | DroneController/services/kmlParser.js:40-44 | The search comes back empty (so the function returns null) exactly when no node anywhere in the tree matches or has its own `hasOwnProperty` entry. |
| `KmlTree.FirstInPreOrderWins` | DroneController/services/kmlParser.js:28-35 | When the k-th node in pre-order is the first that decides, its verdict is the outcome. Later polygons are never returned. |
| `KmlTree.NoShadowNoThrow` | DroneController/services/kmlParser.js:32-34 | In a tree where no object has its own `hasOwnProperty` entry, the search never throws. |
| `KmlTree.NonObjectNotSearched` | DroneController/services/kmlParser.js:25 | A text value or null is not descended into, gives `null`, and decides nothing. |
| `KmlTree.SelfBeforeChildren` | DroneController/services/kmlParser.js:27-30 | A node whose own chain yields a truthy value returns it before any child is visited, and before its loop could throw. |
| `KmlTree.DecisionAtAnyDepth` | DroneController/services/kmlParser.js:32-37 | A matching or shadowed node reached by any path of child indices, under any mix of arrays and objects, keeps the search from ending with `null`. Depth never bounds it. |
| `KmlTree.FoundAt` | DroneController/services/kmlParser.js:27-35 | Whatever the search ends with other than `null` is the verdict of a deciding node at some path in the tree. A value found is truthy. |
| `KmlTree.NestFound` | DroneController/services/kmlParser.js:27-37 | Wrapping a value in single-key objects whose keys are neither `Polygon` nor `hasOwnProperty` does not change what the search ends with. |
| `KmlTree.ExampleDeepPolygon` | DroneController/services/kmlParser.js:24-38 | A polygon under kml/Document/Folder/Placemark/MultiGeometry is found. |
| `KmlTree.ExampleFirstPlacemarkWins` | DroneController/services/kmlParser.js:32-36 | Of two placemarks in an array, only the first one's coordinates are returned. |
| `KmlTree.ExampleEmptyCoordinatesSkipped` | DroneController/services/kmlParser.js:27 | An empty `coordinates` text is falsy. The search moves on to the next placemark. |
| `KmlTree.ExampleRepeatedNameAheadOfFolder` | DroneController/services/kmlParser.js:32-35 | In `<Placemark/><Folder><Placemark>A</Placemark></Folder><Placemark>B</Placemark>` the second top-level placemark joins the first one's array ahead of the folder, so B's coordinates are returned although A comes first in the document. |
| `KmlTree.ExampleInnerBoundaryIgnored` | DroneController/services/kmlParser.js:27 | A polygon with only an `innerBoundaryIs` is not found, because only `outerBoundaryIs` is consulted. |
| `KmlTree.ExampleSiblingPolygonsNotFound` | DroneController/services/kmlParser.js:27 | A `Polygon` key whose value is an array fails the check at that node. Nothing below it has a `Polygon` key, so nothing is found. |
| `KmlTree.ExampleShadowedObjectThrows` | DroneController/services/kmlParser.js:32-34 | An element named `hasOwnProperty` ahead of a placemark makes the walk throw before the placemark is reached. |
| `KmlTree.ExampleShadowedMatchFound` | DroneController/services/kmlParser.js:27-34 | A polygon holder that also has a `hasOwnProperty` entry is still found, because its own chain is tested before its loop runs. |
| `Coordinates.IsWhitespace` | DroneController/services/kmlParser.js:47-48 | The characters `trim()` removes and `\s` matches: the ECMAScript WhiteSpace and LineTerminator code points. These are U+0009–U+000D, U+0020, U+00A0, U+1680, U+2000–U+200A, U+2028, U+2029, U+202F, U+205F, U+3000 and U+FEFF. |
| `Coordinates.TrimStart` | DroneController/services/kmlParser.js:47 | Only leading whitespace is dropped. The result is a suffix of the input and does not start with whitespace. |
| `Coordinates.TrimEnd` | DroneController/services/kmlParser.js:47 | Only trailing whitespace is dropped. The result is a prefix of the input and does not end with whitespace. |
| `Coordinates.Trim` | DroneController/services/kmlParser.js:47 | `trim()` gives a text no longer than its input that neither starts nor ends with whitespace. |
| `Coordinates.TrimIsSlice` | DroneController/services/kmlParser.js:47 | What `trim()` keeps is the slice of the text starting where the leading whitespace ends. Only whitespace lies before and after it. |
| `Coordinates.TrimPadded` | DroneController/services/kmlParser.js:47 | Trimming whitespace padding off a core that has no whitespace at its ends gives back exactly that core. |
| `Coordinates.FirstWhitespace` | DroneController/services/kmlParser.js:48 | The index at which the first whitespace run starts, with no whitespace before it. |
| `Coordinates.SplitWhitespace` | DroneController/services/kmlParser.js:48 | `split(/\s+/)` gives at least one piece. No piece contains whitespace. |
| `Coordinates.SplitRebuilds` | DroneController/services/kmlParser.js:48 | The pieces of any text, with the non-empty whitespace runs the split consumed put back between them, rebuild the text. So every text has the shape `SplitJoinWhitespace` speaks about. |
| `Coordinates.SplitNoComma` | DroneController/services/kmlParser.js:48 | Splitting a comma-free text gives only comma-free tokens. |
| `Coordinates.SplitTrimmedNonEmpty` | DroneController/services/kmlParser.js:47-48 | Splitting trimmed, non-empty text gives only non-empty tokens. |
| `Coordinates.SplitJoinWhitespace` | DroneController/services/kmlParser.js:48 | Round trip: non-empty, whitespace-free tokens joined with a non-empty whitespace run in every gap, each gap its own, split back into the same tokens. |
| `Coordinates.IndexOf` | DroneController/services/kmlParser.js:50 | The index of the first comma, with no comma before it. |
| `Coordinates.SplitOn` | DroneController/services/kmlParser.js:50-51 | `split(',')` gives comma-free pieces that join back to the token. There are two or more pieces exactly when the token contains a comma. |
| `Coordinates.SplitJoinOn` | DroneController/services/kmlParser.js:50 | Round trip: comma-free pieces joined with commas split back into the same pieces. |
| `Coordinates.TokenVertex` | DroneController/services/kmlParser.js:49-59 | The `.map` callback: a vertex with `lat` from field 1, `lon` from field 0 and `alt` from field 2 when that field is present and non-empty and 0 otherwise, when the token has two or more fields. `null` otherwise. |
| `Coordinates.TokenVertexIff` | DroneController/services/kmlParser.js:50-58 | A token gives a vertex exactly when it contains a comma; otherwise the map yields null. |
| `Coordinates.Surviving` | DroneController/services/kmlParser.js:51-60 | The tokens the filter keeps are those that contain a comma, in order. |
| `Coordinates.TokenVertices` | DroneController/services/kmlParser.js:49-60 | The map/filter gives one vertex per surviving token, in token order. The k-th vertex is the one built from the k-th surviving token. |
| `Coordinates.ParseCoordinates` | DroneController/services/kmlParser.js:46-60 | The whole `trim().split(/\s+/).map(…).filter(…)` step, composed from `Trim`, `SplitWhitespace` and `TokenVertices`. |
| `Coordinates.ParseCoordinatesShape` | DroneController/services/kmlParser.js:46-62 | The output length is the number of whitespace-separated tokens of the trimmed text that contain a comma. Each vertex comes from the corresponding surviving token. |
| `Coordinates.NoCommaNoVertices` | DroneController/services/kmlParser.js:46-62 | Text without a comma gives `[]`. This covers empty and all-whitespace text. |
| `Coordinates.TokenFields` | DroneController/services/kmlParser.js:50-56 | In `f0,f1[,f2,...]`, `lon` is `parseFloat(f0)` and `lat` is `parseFloat(f1)`. `alt` is `parseFloat(f2)` when `f2` is present and non-empty, otherwise `0`. Fields after the third are ignored. |
| `Coordinates.Format` | DroneController/services/kmlParser.js:50-51 | A formatted `lon,lat[,alt]` tuple always contains a comma, so it is never filtered out. |
| `Coordinates.FormatAll` | DroneController/services/kmlParser.js:48 | Formats each tuple in order, one token per tuple. |
| `Coordinates.ParseFormatted` | DroneController/services/kmlParser.js:46-62 | N well-formed tuples with any whitespace run in each gap and whitespace padding parse into exactly N vertices in the same order, each with its own lon, lat and alt. |
| `Coordinates.SingleToken` | DroneController/services/kmlParser.js:46-62 | A lone whitespace-free token containing a comma parses into exactly the one vertex that token gives. |
| `Coordinates.ExampleMixedSeparators` | DroneController/services/kmlParser.js:46-62 | `1,2 3,4` then a line break and a tab then `5,6` gives three vertices in order, each without altitude. |
| `Coordinates.ExampleFullTuple` | DroneController/services/kmlParser.js:52-56 | `77.09027,28.98544,150.5` gives lon 77.09027, lat 28.98544 and alt 150.5, never swapped. |
| `Coordinates.ExampleNoAltitude` | DroneController/services/kmlParser.js:55 | `77.09027,28.98544` gives alt `0`. |
| `KmlParser.Extracted` | DroneController/services/kmlParser.js:21-63 | The only errors extraction can end with are the TypeError of a parsed `hasOwnProperty` entry and the TypeError of trimming a non-string. |
| `KmlParser.ExtractPolygonCoordinates` | DroneController/services/kmlParser.js:21-63 | Computes `Extracted`: null when the search finds nothing, the search's TypeError, the TypeError of trimming a non-string, or the vertices of the text at the first deciding node in pre-order, which matches. |
| `KmlParser.Decoded` | DroneController/services/kmlParser.js:12-18 | After XML parsing, the outcome is either non-empty vertices, which are exactly what the extraction returned, or an error. The error is `Polygon not found in KML file` exactly when the extraction gave null or `[]`. |
| `KmlParser.DecodeDocument` | DroneController/services/kmlParser.js:3-19 | Success always carries a non-empty polygon. An error from the XML parser is passed on unchanged. |
| `KmlParser.ParseKml` | DroneController/services/kmlParser.js:3-19 | `parseKML` computes `DecodeDocument`. It never returns null or `[]`. |
| `KmlParser.DecodeWithoutPolygon` | DroneController/services/kmlParser.js:14-16 | A document with no matching node and no `hasOwnProperty` element at any depth fails with `Polygon not found in KML file`. |
| `KmlParser.DecodeShadowed` | DroneController/services/kmlParser.js:12-18 | When the first deciding node is an object with its own `hasOwnProperty` entry, decoding fails with that TypeError. |
| `KmlParser.DecodeWithoutComma` | DroneController/services/kmlParser.js:14-16 | Located text with no comma-bearing token fails with the same error as a missing polygon. |
| `KmlParser.DecodeFormatted` | DroneController/services/kmlParser.js:12-18 | When the first polygon holds N well-formed tuples with any whitespace run in each gap, decoding gives exactly those N vertices in order. |
| `KmlParser.DecodeText` | DroneController/services/kmlParser.js:12-18 | Located text that yields vertices decodes into exactly those vertices. |
| `KmlParser.DecodeNonText` | DroneController/services/kmlParser.js:46-47 | A located `coordinates` value that is an array or an object fails with the TypeError of `trim`. |
| `MissionController.UploadedFile.constructor` | DroneController/controllers/missionController.js:24 | A fresh upload's temporary copy is on disk and has not been read or deleted. |
| `MissionController.UploadedFile.ReadFileSync` | DroneController/controllers/missionController.js:24 | Reading gives the content. It fails with ENOENT when the copy is gone, or with the file's read fault. It counts one read and changes nothing else. |
| `MissionController.UploadedFile.UnlinkSync` | DroneController/controllers/missionController.js:25 | Deleting removes a copy that is there and counts one deletion. When the copy is gone it fails with ENOENT. Afterwards the copy is never on disk. |
| `MissionController.UploadedFile.ExistsSync` | DroneController/controllers/missionController.js:45 | `fs.existsSync`: whether the upload copy is still on disk. |
| `MissionController.MissionStore.constructor` | DroneController/controllers/missionController.js:5 | The table starts empty, and its first id is 1. |
| `MissionController.MissionStore.Create` | DroneController/controllers/missionController.js:31-36 | With no backend fault, stores `Mission(nextId, name, polygon)` under a fresh id and advances the counter. With a fault, it fails with the fault's message and changes nothing. |
| `MissionController.MissionStore.FindUnique` | DroneController/controllers/missionController.js:67-69 | Looks the id up: the stored mission, whose id is the requested one, or none. A NaN id or a backend fault is an error. |
| `MissionController.ToLower` | DroneController/controllers/missionController.js:16 | Lower-cases ASCII letters and the Kelvin sign character by character. This model keeps the length. |
| `MissionController.IsKmlName` | DroneController/controllers/missionController.js:16 | The lower-cased name ends in `.kml`. Its meaning is stated by `IsKmlNameIff`. |
| `MissionController.IsKmlNameIff` | DroneController/controllers/missionController.js:16 | The lower-cased name ends with `.kml` exactly when its last four characters are `.`, then K, M and L in either case. For K, the Kelvin sign also counts. |
| `MissionController.ExampleUpperCaseKml` | DroneController/controllers/missionController.js:16 | `PLAN.KML` passes the check. |
| `MissionController.ExampleTextFileRejected` | DroneController/controllers/missionController.js:16 | `plan.txt` fails the check. |
| `MissionController.MissionName` | DroneController/controllers/missionController.js:29 | A non-empty `name` is used as given. A missing or empty one becomes `Imported KML Mission`. |
| `MissionController.ErrorResponse` | DroneController/controllers/missionController.js:49-59 | Error mapping: `Polygon not found in KML file` gives 400 `Polygon not found`. Any other message gives 500 with that message. |
| `MissionController.ImportKml` | DroneController/controllers/missionController.js:24-42 | Reads once. A failed read answers with its error and deletes nothing. Otherwise the copy is deleted exactly once, then the document is decoded and stored. The reply carries the id the store assigned and the same polygon that was stored. |
| `MissionController.UploadKml` | DroneController/controllers/missionController.js:7-61 | No file gives 400 `File missing` and touches nothing. A present file's copy is gone afterwards: deleted exactly once if it was there, never twice. A non-`.kml` name is deleted and never read, gives 400 `File is not KML`, and stores nothing. Any failure stores nothing and is mapped by `ErrorResponse`. A success stores a non-empty polygon under a fresh id and answers with that id and polygon. |
| `MissionController.GetMission` | DroneController/controllers/missionController.js:63-89 | A known id gives 200 with that id and the stored polygon. An unknown id gives 404 `Mission not found`. A NaN id or a store fault gives 500 with the error's message. The table is not changed. |
| `MissionController.UploadThenGet` | DroneController/controllers/missionController.js:31-81 | Round trip: after a successful upload, fetching the id it answered with returns that id and the same polygon. |

## Left out

- XML parsing (`fast-xml-parser`, DroneController/services/kmlParser.js:4-10) is a foreign library. It is the parameter `xmlParse`, which yields a `Node` tree or throws. Attribute parsing and the parser's conversion of number-like text are not modelled. Located coordinates are a text value, an array or an object, never a JavaScript number.
- `parseFloat`, NaN and floating point are left out. A number is the symbolic `ParseFloat(text)` or the literal `Zero`, so the model states which field each number came from and nothing about its value.
- Key order: a `Map`'s entries are in JavaScript's enumeration order. The XML parser gives its keys in order of first occurrence, and later siblings with the same name join the array at the first one's position. Integer-like keys, which JavaScript enumerates first, cannot be XML element names and are not modelled. A key listed twice stands for no JavaScript object; lookups take its first entry.
- MissionController.ToLower: `toLowerCase` is modelled for ASCII letters and the Kelvin sign only. The other Unicode case mappings are left out, because none of them produces `.`, `k`, `m` or `l`, so `IsKmlNameIff` holds of JavaScript as well. `ToLower` keeps the length in the model only: JavaScript lower-cases U+0130 (capital I with dot above) to two code units.
- Prisma (`prisma.mission.create`, `findUnique`) is the `MissionStore` class. A backend failure is the parameter `storeFault`, with its message. A failed insert changes nothing, including the id counter, whether or not the real database's sequence advances.
- `MissionController.MissionStore.FindUnique`: the text of the store's validation error for a NaN id is a stand-in (`InvalidId`). Prisma's exact message is not modelled.
- `parseInt(req.params.id)` is left out. `GetMission` takes its result as `Option<int>`, with `None` for NaN.
- `fs`: `unlinkSync` fails only when the file is gone. Permission and other I/O errors while deleting are not modelled. With them, the `catch` block's own `unlinkSync` could throw out of the handler. `readFileSync` fails when the file is gone, or with the file's `readFault`.
- Express `req`/`res` and multer: the request is the `file` parameter (null when missing) and the optional `name`. The response is a `Response(status, body)` value. `async`/`await` is treated as sequential execution.
- DroneController/controllers/droneController.js, DroneController/prisma/seed.js, DroneController/index.js, DroneController/routes/*.js and the drone-dash user interface are not part of this model. They are pass-through database access, server wiring and presentation.
