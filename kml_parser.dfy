/** `parseKML` and `extractPolygonCoordinates`
    (DroneController/services/kmlParser.js): locate the first polygon's
    outer boundary in the parsed document and turn its text into vertices,
    failing when there are none. */
module KmlParser {
  import opened Wrappers
  import opened KmlTree
  import opened Coordinates

  /** The message of the error `parseKML` throws when it has no vertices. */
  const PolygonNotFound: string := "Polygon not found in KML file"

  /** The message of the TypeError thrown when the located `coordinates`
      value is an array or an object, which has no `trim` method. */
  const TrimNotAFunction: string := "coordinatesText.trim is not a function"

  /** What `extractPolygonCoordinates` produces for a parsed document:
      `null` when the search finds nothing, the vertices of the located
      text otherwise, the TypeError the search throws at a shadowed
      object, or the TypeError of calling `trim` on a non-string. */
  function Extracted(kmlData: Node): (r: Result<Option<seq<Vertex>>>)
    ensures r.Failure? ==> r.error == HasOwnPropertyNotAFunction || r.error == TrimNotAFunction
  {
    match Find(kmlData)
    case Failure(e) => Failure(e)
    case Success(None) => Success(None)
    case Success(Some(Scalar(text))) => Success(Some(ParseCoordinates(text)))
    case Success(Some(_)) => Failure(TrimNotAFunction)
  }

  /** `extractPolygonCoordinates`: run the search, then the coordinate
      pipeline on the text it found. */
  method ExtractPolygonCoordinates(kmlData: Node) returns (r: Result<Option<seq<Vertex>>>)
    ensures r == Extracted(kmlData)
    ensures r.Success? && r.value.Some? ==>
              exists k :: 0 <= k < |PreOrder(kmlData)| && Matches(PreOrder(kmlData)[k])
                          && (forall j :: 0 <= j < k ==> !Decides(PreOrder(kmlData)[j]))
                          && Boundary(PreOrder(kmlData)[k]).value.Scalar?
                          && r.value.value == ParseCoordinates(Boundary(PreOrder(kmlData)[k]).value.s)
  {
    var coordinatesText := Traverse(kmlData);
    FindIsFirstDecision(kmlData);
    if coordinatesText != Success(None) {
      FirstDecisionFound(PreOrder(kmlData));
    }
    if coordinatesText.Failure? {
      return Failure(coordinatesText.error);
    }
    if coordinatesText.value.None? {
      return Success(None);
    }
    match coordinatesText.value.value
    case Scalar(text) =>
      r := Success(Some(ParseCoordinates(text)));
    case _ =>
      r := Failure(TrimNotAFunction);
  }

  /** The outcome of `parseKML` once the XML parser has produced `kmlData`:
      the extracted vertices when there is at least one, the error
      `Polygon not found in KML file` when the extraction gave `null` or
      `[]`, and any other error unchanged. */
  function Decoded(kmlData: Node): (r: Result<seq<Vertex>>)
    ensures r.Success? ==> |r.value| > 0
    ensures r.Success? ==> Extracted(kmlData) == Success(Some(r.value))
    ensures r == Failure(PolygonNotFound) <==>
              Extracted(kmlData) == Success(None) || Extracted(kmlData) == Success(Some([]))
  {
    match Extracted(kmlData)
    case Failure(e) =>
      assert e != PolygonNotFound by {
        assert PolygonNotFound[0] == 'P' && HasOwnPropertyNotAFunction[0] == 'o' && TrimNotAFunction[0] == 'c';
      }
      Failure(e)
    case Success(polygon) =>
      if polygon.None? || |polygon.value| == 0 then Failure(PolygonNotFound)
      else Success(polygon.value)
  }

  /** `parseKML` as a whole; `xmlParse` stands for the XML parser, which
      either yields the parsed tree or throws an error with a message. */
  function DecodeDocument(kmlContent: string, xmlParse: string -> Result<Node>): (r: Result<seq<Vertex>>)
    ensures r.Success? ==> |r.value| > 0
    ensures xmlParse(kmlContent).Failure? ==> r == Failure(xmlParse(kmlContent).error)
  {
    match xmlParse(kmlContent)
    case Failure(e) => Failure(e)
    case Success(kmlData) => Decoded(kmlData)
  }

  /** `parseKML`: parse, extract, and reject a missing or empty polygon. */
  method ParseKml(kmlContent: string, xmlParse: string -> Result<Node>) returns (r: Result<seq<Vertex>>)
    ensures r == DecodeDocument(kmlContent, xmlParse)
    ensures r.Success? ==> |r.value| > 0
  {
    var result := xmlParse(kmlContent);
    if result.Failure? {
      return Failure(result.error);
    }
    var polygon := ExtractPolygonCoordinates(result.value);
    if polygon.Failure? {
      return Failure(polygon.error);
    }
    if polygon.value.None? || |polygon.value.value| == 0 {
      return Failure(PolygonNotFound);
    }
    r := Success(polygon.value.value);
  }

  /** A document in which no node has a truthy outer-boundary coordinates
      value, at whatever depth, and no object has its own `hasOwnProperty`
      entry, fails with `Polygon not found in KML file`. */
  lemma {:induction false} DecodeWithoutPolygon(kmlData: Node)
    requires forall j :: 0 <= j < |PreOrder(kmlData)| ==> !Decides(PreOrder(kmlData)[j])
    ensures Decoded(kmlData) == Failure(PolygonNotFound)
  {
    NotFoundIff(kmlData);
  }

  /** When the first deciding node in pre-order is an object with its own
      `hasOwnProperty` entry and no polygon, decoding fails with the
      TypeError of calling that entry. */
  lemma {:induction false} DecodeShadowed(kmlData: Node, k: nat)
    requires k < |PreOrder(kmlData)| && Shadowed(PreOrder(kmlData)[k]) && !Matches(PreOrder(kmlData)[k])
    requires forall j :: 0 <= j < k ==> !Decides(PreOrder(kmlData)[j])
    ensures Decoded(kmlData) == Failure(HasOwnPropertyNotAFunction)
  {
    FirstInPreOrderWins(kmlData, k);
  }

  /** Coordinates text with no comma at all yields no vertex, so decoding
      fails with the same error as a missing polygon. */
  lemma {:induction false} DecodeWithoutComma(kmlData: Node, text: string)
    requires Find(kmlData) == Success(Some(Scalar(text))) && ',' !in text
    ensures Decoded(kmlData) == Failure(PolygonNotFound)
  {
    NoCommaNoVertices(text);
  }

  /** When the first polygon's coordinates are N well-formed tuples, the
      decoded polygon is N vertices in the order of the tuples. */
  lemma {:induction false} DecodeFormatted(kmlData: Node, ts: seq<Tuple>, seps: seq<string>, lead: string, trail: string)
    requires |ts| > 0 && forall k :: 0 <= k < |ts| ==> WellFormedTuple(ts[k])
    requires |seps| + 1 == |ts| && Separators(seps) && AllWhitespace(lead) && AllWhitespace(trail)
    requires Find(kmlData) == Success(Some(Scalar(lead + JoinWith(FormatAll(ts), seps) + trail)))
    ensures Decoded(kmlData).Success?
    ensures |Decoded(kmlData).value| == |ts|
    ensures forall k :: 0 <= k < |ts| ==> Decoded(kmlData).value[k] == TupleVertex(ts[k])
  {
    var text := lead + JoinWith(FormatAll(ts), seps) + trail;
    ParseFormatted(ts, seps, lead, trail);
    DecodeText(kmlData, text);
  }

  /** Located text that yields vertices decodes into exactly those. */
  lemma {:induction false} DecodeText(kmlData: Node, text: string)
    requires Find(kmlData) == Success(Some(Scalar(text))) && ParseCoordinates(text) != []
    ensures Decoded(kmlData) == Success(ParseCoordinates(text))
  {
    assert Extracted(kmlData) == Success(Some(ParseCoordinates(text)));
  }

  /** A `coordinates` element that arrives as an array or an object (for
      instance, repeated or carrying attributes) makes `trim` throw. */
  lemma {:induction false} DecodeNonText(kmlData: Node)
    requires Find(kmlData).Success? && Find(kmlData).value.Some? && !Find(kmlData).value.value.Scalar?
    ensures Decoded(kmlData) == Failure(TrimNotAFunction)
  {
  }
}
