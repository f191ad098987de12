/** The mission upload and retrieval handlers
    (DroneController/controllers/missionController.js): `uploadKML`
    validates the uploaded file, reads and deletes its temporary copy,
    decodes it, stores the mission and answers; `getMission` looks a
    mission up by id. */
module MissionController {
  import opened Wrappers
  import opened Coordinates
  import opened KmlParser
  import KmlTree

  const DefaultMissionName: string := "Imported KML Mission"

  /** A stored mission, as the record store returns it. */
  datatype Mission = Mission(id: int, name: string, polygon: seq<Vertex>)

  /** A JSON response body. */
  datatype Body =
    | ErrorBody(message: string)                          // { status: 'error', message }
    | UploadedBody(missionId: int, polygon: seq<Vertex>)  // { mission_id, status: 'ok', polygon }
    | MissionBody(missionId: int, polygon: seq<Vertex>)   // { mission_id, polygon }

  /** `res.status(status).json(body)`. */
  datatype Response = Response(status: int, body: Body)

  /** The message Node's `fs` gives a call on a path that does not exist. */
  function NoSuchFile(syscall: string, path: string): string {
    "ENOENT: no such file or directory, " + syscall + " '" + path + "'"
  }

  /** The file the upload middleware received: its declared name, the path
      of its temporary copy, and that copy's content. `onDisk` says whether
      the temporary copy is there; `deletions` and `readCount` count the
      calls that removed and read it. `readFault` is the error reading
      throws although the copy is there (a permission error, for
      instance, which still lets the copy be deleted), or `None` when
      reading it works. */
  class UploadedFile {
    const originalname: string
    const path: string
    const content: string
    const readFault: Option<string>
    var onDisk: bool
    var deletions: nat
    var readCount: nat

    constructor (originalname: string, path: string, content: string, readFault: Option<string>)
      ensures this.originalname == originalname && this.path == path
      ensures this.content == content && this.readFault == readFault
      ensures onDisk && deletions == 0 && readCount == 0
    {
      this.originalname := originalname;
      this.path := path;
      this.content := content;
      this.readFault := readFault;
      onDisk := true;
      deletions := 0;
      readCount := 0;
    }

    /** `fs.existsSync(path)`. */
    predicate ExistsSync()
      reads this
    {
      onDisk
    }

    /** What `fs.readFileSync(path, 'utf-8')` gives in the state `onDisk`. */
    function ReadOutcome(present: bool): Result<string> {
      if !present then Failure(NoSuchFile("open", path))
      else if readFault.Some? then Failure(readFault.value)
      else Success(content)
    }

    /** `fs.readFileSync(path, 'utf-8')`. */
    method ReadFileSync() returns (r: Result<string>)
      modifies this
      ensures r == ReadOutcome(old(onDisk))
      ensures readCount == old(readCount) + 1
      ensures onDisk == old(onDisk) && deletions == old(deletions)
    {
      readCount := readCount + 1;
      r := ReadOutcome(onDisk);
    }

    /** `fs.unlinkSync(path)`: removes the file, or throws when it is gone. */
    method UnlinkSync() returns (r: Result<()>)
      modifies this
      ensures r == if old(onDisk) then Success(()) else Failure(NoSuchFile("unlink", path))
      ensures !onDisk && readCount == old(readCount)
      ensures deletions == old(deletions) + (if old(onDisk) then 1 else 0)
    {
      if onDisk {
        onDisk := false;
        deletions := deletions + 1;
        r := Success(());
      } else {
        r := Failure(NoSuchFile("unlink", path));
      }
    }
  }

  /** The message the store's query validation gives for the id `NaN`; the
      model does not fix its text. */
  const InvalidId: string := "Invalid value provided for argument `id`"

  /** The mission table: missions by id, and the next id the table's
      auto-increment will hand out. A `fault` parameter stands for a
      failure of the database backend, with its message. */
  class MissionStore {
    var missions: map<int, Mission>
    var nextId: int

    ghost predicate Valid()
      reads this
    {
      && nextId >= 1
      && forall id :: id in missions ==> 1 <= id < nextId && missions[id].id == id
    }

    constructor ()
      ensures Valid() && missions == map[] && nextId == 1
    {
      missions := map[];
      nextId := 1;
    }

    /** `prisma.mission.create({ data: { name, polygon } })`. */
    method Create(name: string, polygon: seq<Vertex>, fault: Option<string>) returns (r: Result<Mission>)
      requires Valid()
      modifies this
      ensures Valid()
      ensures fault.Some? ==> r == Failure(fault.value) && unchanged(this)
      ensures fault.None? ==>
                && old(nextId) !in old(missions)
                && r == Success(Mission(old(nextId), name, polygon))
                && missions == old(missions)[old(nextId) := r.value]
                && nextId == old(nextId) + 1
    {
      if fault.Some? {
        return Failure(fault.value);
      }
      var mission := Mission(nextId, name, polygon);
      missions := missions[nextId := mission];
      nextId := nextId + 1;
      r := Success(mission);
    }

    /** `prisma.mission.findUnique({ where: { id } })`, where `None` is the
        `NaN` that `parseInt` gives for a non-numeric id. */
    method FindUnique(id: Option<int>, fault: Option<string>) returns (r: Result<Option<Mission>>)
      requires Valid()
      ensures id.None? ==> r == Failure(InvalidId)
      ensures id.Some? && fault.Some? ==> r == Failure(fault.value)
      ensures id.Some? && fault.None? ==>
                r == Success(if id.value in missions then Some(missions[id.value]) else None)
      ensures r.Success? && r.value.Some? ==> r.value.value.id == id.value
    {
      if id.None? {
        return Failure(InvalidId);
      }
      if fault.Some? {
        return Failure(fault.value);
      }
      if id.value in missions {
        r := Success(Some(missions[id.value]));
      } else {
        r := Success(None);
      }
    }
  }

  /** The workflow's own invariant on the table: no stored mission has an
      empty polygon. */
  ghost predicate PolygonsNonEmpty(missions: map<int, Mission>) {
    forall id :: id in missions ==> |missions[id].polygon| > 0
  }

  // ---------------------------------------------------------------
  // uploadKML

  /** `String.prototype.toLowerCase` on one character, for the characters
      whose lower case is one of `.`, `k`, `m` and `l` and for ASCII. */
  function LowerChar(c: char): char {
    if 'A' <= c <= 'Z' then (c as int + 32) as char
    else if c == '\U{212A}' then 'k'  // KELVIN SIGN
    else c
  }

  function ToLower(s: string): (r: string)
    ensures |r| == |s| && forall k :: 0 <= k < |s| ==> r[k] == LowerChar(s[k])
  {
    if s == [] then [] else [LowerChar(s[0])] + ToLower(s[1..])
  }

  /** `originalname.toLowerCase().endsWith('.kml')`. */
  predicate IsKmlName(originalname: string) {
    var lower := ToLower(originalname);
    |lower| >= 4 && lower[|lower| - 4..] == ".kml"
  }

  /** The suffix test, character by character: a dot and then `k`, `m`, `l`
      in either case (or the Kelvin sign for `k`). */
  lemma {:induction false} IsKmlNameIff(originalname: string)
    ensures IsKmlName(originalname) <==>
      var n := |originalname|;
      && n >= 4
      && originalname[n - 4] == '.'
      && originalname[n - 3] in {'k', 'K', '\U{212A}'}
      && originalname[n - 2] in {'m', 'M'}
      && originalname[n - 1] in {'l', 'L'}
  {
    var lower := ToLower(originalname);
    var n := |originalname|;
    if n >= 4 {
      assert lower[n - 4..] == [lower[n - 4], lower[n - 3], lower[n - 2], lower[n - 1]];
    }
  }

  lemma ExampleUpperCaseKml()
    ensures IsKmlName("PLAN.KML")
  {
    IsKmlNameIff("PLAN.KML");
  }

  lemma ExampleTextFileRejected()
    ensures !IsKmlName("plan.txt")
  {
    IsKmlNameIff("plan.txt");
  }

  /** `req.body.name || 'Imported KML Mission'`: a missing or empty name
      falls back to the default. */
  function MissionName(name: Option<string>): (r: string)
    ensures name.Some? && name.value != "" ==> r == name.value
    ensures name.None? || name.value == "" ==> r == DefaultMissionName
  {
    if name.Some? && name.value != "" then name.value else DefaultMissionName
  }

  /** The `catch` block's answer for an error with `message`. */
  function ErrorResponse(message: string): (r: Response)
    ensures r.body.ErrorBody?
    ensures r.status == 400 <==> message == PolygonNotFound
    ensures r.status != 400 ==> r == Response(500, ErrorBody(message))
    ensures r.status == 400 ==> r.body.message == "Polygon not found"
  {
    if message == PolygonNotFound then Response(400, ErrorBody("Polygon not found"))
    else Response(500, ErrorBody(message))
  }

  /** The part of the `try` block of `uploadKML` after the name check:
      read the temporary copy, delete it, decode, store. The result is the
      answer, or the error thrown. */
  method ImportKml(file: UploadedFile, bodyName: Option<string>, store: MissionStore,
                   xmlParse: string -> Result<KmlTree.Node>, storeFault: Option<string>)
    returns (outcome: Result<Response>)
    requires store.Valid()
    modifies file, store
    ensures store.Valid()
    ensures file.readCount == old(file.readCount) + 1
    ensures var read := file.ReadOutcome(old(file.onDisk));
            && (read.Failure? ==>
                  && outcome == Failure(read.error) && unchanged(store)
                  && file.onDisk == old(file.onDisk) && file.deletions == old(file.deletions))
            && (read.Success? ==> !file.onDisk && file.deletions == old(file.deletions) + 1)
    ensures var read := file.ReadOutcome(old(file.onDisk));
            var d := DecodeDocument(file.content, xmlParse);
            read.Success? ==>
              && (d.Failure? ==> outcome == Failure(d.error) && unchanged(store))
              && (d.Success? && storeFault.Some? ==> outcome == Failure(storeFault.value) && unchanged(store))
              && (d.Success? && storeFault.None? ==>
                    && outcome == Success(Response(200, UploadedBody(old(store.nextId), d.value)))
                    && store.missions == old(store.missions)[old(store.nextId) :=
                                           Mission(old(store.nextId), MissionName(bodyName), d.value)]
                    && store.nextId == old(store.nextId) + 1)
  {
    var kmlContent := file.ReadFileSync();
    if kmlContent.Failure? {
      return Failure(kmlContent.error);
    }
    var unlinked := file.UnlinkSync();
    if unlinked.Failure? {
      return Failure(unlinked.error);
    }
    var polygon := ParseKml(kmlContent.value, xmlParse);
    if polygon.Failure? {
      return Failure(polygon.error);
    }
    var missionName := MissionName(bodyName);
    var mission := store.Create(missionName, polygon.value, storeFault);
    if mission.Failure? {
      return Failure(mission.error);
    }
    outcome := Success(Response(200, UploadedBody(mission.value.id, polygon.value)));
  }

  /** `uploadKML`: the `try` block, and for an error it throws, the `catch`
      block, which deletes the temporary file only if it is still there and
      maps the error to a response. */
  method UploadKml(file: UploadedFile?, bodyName: Option<string>, store: MissionStore,
                   xmlParse: string -> Result<KmlTree.Node>, storeFault: Option<string>)
    returns (res: Response)
    requires store.Valid() && PolygonsNonEmpty(store.missions)
    modifies file, store
    ensures store.Valid() && PolygonsNonEmpty(store.missions)
    // No file: nothing is touched.
    ensures file == null ==> res == Response(400, ErrorBody("File missing")) && unchanged(store)
    // With a file, its temporary copy is gone afterwards, deleted exactly once if it was there.
    ensures file != null ==>
              !file.onDisk && file.deletions == old(file.deletions) + (if old(file.onDisk) then 1 else 0)
    // A name without the `.kml` suffix: the file is not read and nothing is stored.
    ensures file != null && !IsKmlName(file.originalname) ==>
              && file.readCount == old(file.readCount) && unchanged(store)
              && res == if old(file.onDisk) then Response(400, ErrorBody("File is not KML"))
                        else ErrorResponse(NoSuchFile("unlink", file.path))
    // A `.kml` name: the file is read once; a failed read answers with its error.
    ensures file != null && IsKmlName(file.originalname) ==>
              && file.readCount == old(file.readCount) + 1
              && var read := file.ReadOutcome(old(file.onDisk));
                 read.Failure? ==> res == ErrorResponse(read.error) && unchanged(store)
    // A `.kml` file that was read: decoded, then stored or mapped to an error.
    ensures file != null && IsKmlName(file.originalname) && file.ReadOutcome(old(file.onDisk)).Success? ==>
              var d := DecodeDocument(file.content, xmlParse);
              && (d.Failure? ==> res == ErrorResponse(d.error) && unchanged(store))
              && (d.Success? && storeFault.Some? ==> res == ErrorResponse(storeFault.value) && unchanged(store))
              && (d.Success? && storeFault.None? ==>
                    && res == Response(200, UploadedBody(old(store.nextId), d.value))
                    && store.missions == old(store.missions)[old(store.nextId) :=
                                           Mission(old(store.nextId), MissionName(bodyName), d.value)]
                    && store.nextId == old(store.nextId) + 1)
    // Only a success writes, with a fresh id, a non-empty polygon, and the polygon it answers with.
    ensures res.status != 200 ==> unchanged(store)
    ensures res.status == 200 ==>
              && res.body.UploadedBody?
              && res.body.missionId !in old(store.missions)
              && |res.body.polygon| > 0
              && store.missions == old(store.missions)[res.body.missionId :=
                                     Mission(res.body.missionId, MissionName(bodyName), res.body.polygon)]
  {
    // try
    var outcome: Result<Response>;
    if file == null {
      return Response(400, ErrorBody("File missing"));
    }
    if !IsKmlName(file.originalname) {
      var unlinked := file.UnlinkSync();
      if unlinked.Success? {
        return Response(400, ErrorBody("File is not KML"));
      }
      outcome := Failure(unlinked.error);
    } else {
      outcome := ImportKml(file, bodyName, store, xmlParse, storeFault);
      if outcome.Success? {
        return outcome.value;
      }
    }
    // catch (error)
    if file.ExistsSync() {
      var _ := file.UnlinkSync();
    }
    res := ErrorResponse(outcome.error);
  }

  // ---------------------------------------------------------------
  // getMission

  /** `getMission`: the stored polygon under `id`, 404 for an unknown id,
      500 for an error of the store. `id` is what `parseInt` made of the
      path parameter, `None` standing for `NaN`. */
  method GetMission(store: MissionStore, id: Option<int>, storeFault: Option<string>) returns (res: Response)
    requires store.Valid()
    ensures id.None? ==> res == Response(500, ErrorBody(InvalidId))
    ensures id.Some? && storeFault.Some? ==> res == Response(500, ErrorBody(storeFault.value))
    ensures id.Some? && storeFault.None? && id.value !in store.missions ==>
              res == Response(404, ErrorBody("Mission not found"))
    ensures id.Some? && storeFault.None? && id.value in store.missions ==>
              res == Response(200, MissionBody(id.value, store.missions[id.value].polygon))
  {
    var mission := store.FindUnique(id, storeFault);
    if mission.Failure? {
      return Response(500, ErrorBody(mission.error));
    }
    if mission.value.None? {
      return Response(404, ErrorBody("Mission not found"));
    }
    res := Response(200, MissionBody(mission.value.value.id, mission.value.value.polygon));
  }

  /** Create, then get: the mission an upload stored is retrieved under the
      id the upload answered with, with the same polygon. */
  method UploadThenGet(file: UploadedFile?, bodyName: Option<string>, store: MissionStore,
                       xmlParse: string -> Result<KmlTree.Node>, storeFault: Option<string>)
    returns (uploaded: Response, fetched: Response)
    requires store.Valid() && PolygonsNonEmpty(store.missions)
    modifies file, store
    ensures uploaded.status == 200 ==>
              uploaded.body.UploadedBody? && fetched == Response(200, MissionBody(uploaded.body.missionId, uploaded.body.polygon))
  {
    uploaded := UploadKml(file, bodyName, store, xmlParse, storeFault);
    if uploaded.status == 200 {
      fetched := GetMission(store, Some(uploaded.body.missionId), None);
    } else {
      fetched := uploaded;
    }
  }
}
