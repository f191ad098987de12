/** The generic tree the XML parser hands to the polygon locator, and the
    locator itself (`extractPolygonCoordinates` and its inner `traverse`
    in DroneController/services/kmlParser.js). */
module KmlTree {
  import opened Wrappers

  /** A parsed XML value: `null`, a text value, an array (repeated
      elements) or an object whose keys are listed in enumeration order.
      For element names that is the order of first occurrence: later
      siblings with the same name join the array at the first one's
      position. A key listed twice does not stand for any JavaScript
      object; lookups take its first entry. */
  datatype Node =
    | Null
    | Scalar(s: string)
    | List(items: seq<Node>)
    | Map(entries: seq<(string, Node)>)

  /** `obj && typeof obj === 'object'`: only arrays and objects are searched. */
  predicate IsObject(n: Node) {
    n.List? || n.Map?
  }

  /** JavaScript truthiness: `null` and `""` are falsy, every array and
      every object (even an empty one) is truthy. */
  predicate Truthy(n: Node) {
    match n
    case Null => false
    case Scalar(s) => s != ""
    case _ => true
  }

  /** The first entry of `es` under `key`. */
  function Lookup(es: seq<(string, Node)>, key: string): (r: Option<Node>)
    ensures r.None? <==> forall i :: 0 <= i < |es| ==> es[i].0 != key
    ensures r.Some? ==> exists i :: 0 <= i < |es| && es[i] == (key, r.value)
                                   && forall j :: 0 <= j < i ==> es[j].0 != key
  {
    if es == [] then None
    else if es[0].0 == key then Some(es[0].1)
    else
      var r := Lookup(es[1..], key);
      assert forall j :: 1 <= j < |es| ==> es[j] == es[1..][j - 1];
      r
  }

  /** Optional-chaining property access `n?.key`: only an object has named
      properties; on `null` the chain stops, and a string or an array has no
      such property, so the access gives `undefined`. */
  function Get(n: Node, key: string): Option<Node> {
    match n
    case Map(es) => Lookup(es, key)
    case _ => None
  }

  /** `n?.k0?.k1?...`: the value at the end of a chain of property accesses. */
  function Path(n: Node, keys: seq<string>): Option<Node>
    decreases |keys|
  {
    if keys == [] then Some(n)
    else
      match Get(n, keys[0])
      case None => None
      case Some(c) => Path(c, keys[1..])
  }

  /** The one chain the locator looks for. */
  const BoundaryPath: seq<string> := ["Polygon", "outerBoundaryIs", "LinearRing", "coordinates"]

  /** The value at `Polygon.outerBoundaryIs.LinearRing.coordinates`, if any. */
  function Boundary(n: Node): Option<Node> {
    Path(n, BoundaryPath)
  }

  /** The two tests at the top of `traverse`: the node is an array or an
      object, and the chain yields a truthy value. */
  predicate Matches(n: Node) {
    IsObject(n) && Boundary(n).Some? && Truthy(Boundary(n).value)
  }

  /** How many values `for (const key in obj)` enumerates. */
  function NumChildren(n: Node): nat {
    match n
    case List(items) => |items|
    case Map(es) => |es|
    case _ => 0
  }

  /** The `i`-th value enumerated by `for (const key in obj)`. */
  function ChildAt(n: Node, i: nat): (c: Node)
    requires i < NumChildren(n)
    ensures n decreases to c
  {
    match n
    case List(items) => items[i]
    case Map(es) => assert es[i] in es; es[i].1
  }

  /** The message of the TypeError thrown by `obj.hasOwnProperty(key)`
      when the object's own `hasOwnProperty` entry, a parsed element,
      hides the inherited method. */
  const HasOwnPropertyNotAFunction: string := "obj.hasOwnProperty is not a function"

  /** An object with its own `hasOwnProperty` entry: the first pass of
      `for (const key in obj)` calls that entry, which is not a function. */
  predicate Shadowed(n: Node) {
    n.Map? && Get(n, "hasOwnProperty").Some?
  }

  /** A node at which `traverse` stops the whole walk: its own chain
      matches, or its loop throws. */
  predicate Decides(n: Node) {
    Matches(n) || Shadowed(n)
  }

  /** What the walk ends with at a deciding node. */
  function Verdict(n: Node): Result<Option<Node>> {
    if Matches(n) then Success(Boundary(n)) else Failure(HasOwnPropertyNotAFunction)
  }

  // ---------------------------------------------------------------
  // The search, as the code performs it

  /** What `traverse(n)` leaves in `coordinatesText` when it starts with
      `coordinatesText` null, or the error it throws: the node's own chain
      first, then its children in enumeration order, stopping at the first
      truthy result. */
  function Find(n: Node): (r: Result<Option<Node>>)
    ensures r.Failure? ==> r.error == HasOwnPropertyNotAFunction
    decreases n, NumChildren(n) + 1
  {
    if !IsObject(n) then Success(None)
    else if Matches(n) then Success(Boundary(n))
    else if Shadowed(n) then Failure(HasOwnPropertyNotAFunction)
    else FindFrom(n, 0)
  }

  /** The search over the children of `n` from the `i`-th on. */
  function FindFrom(n: Node, i: nat): (r: Result<Option<Node>>)
    requires i <= NumChildren(n)
    ensures r.Failure? ==> r.error == HasOwnPropertyNotAFunction
    decreases n, NumChildren(n) - i
  {
    if i == NumChildren(n) then Success(None)
    else
      var r := Find(ChildAt(n, i));
      if r != Success(None) then r else FindFrom(n, i + 1)
  }

  /** `traverse` (kmlParser.js), a recursive walk that writes the value it
      finds to the variable `coordinatesText` it shares with its caller and
      returns as soon as that variable is set. Every call starts while that
      variable is still null, so the walk is modelled with the variable as
      the method's result; a thrown error is a `Failure`. */
  method Traverse(obj: Node) returns (coordinatesText: Result<Option<Node>>)
    ensures coordinatesText == Find(obj)
    decreases obj
  {
    coordinatesText := Success(None);
    if !IsObject(obj) {
      return;
    }
    var c := Boundary(obj);
    if c.Some? && Truthy(c.value) {
      coordinatesText := Success(c);
      return;
    }
    var i := 0;
    while i < NumChildren(obj)
      invariant 0 <= i <= NumChildren(obj)
      invariant coordinatesText == Success(None)
      invariant i > 0 ==> !Shadowed(obj)
      invariant !Shadowed(obj) ==> FindFrom(obj, i) == Find(obj)
    {
      if Shadowed(obj) {
        // `obj.hasOwnProperty(key)` calls the parsed entry
        return Failure(HasOwnPropertyNotAFunction);
      }
      coordinatesText := Traverse(ChildAt(obj, i));
      if coordinatesText != Success(None) {
        return;
      }
      i := i + 1;
    }
  }

  // ---------------------------------------------------------------
  // An independent account of the search: the first deciding node in
  // the pre-order listing of the whole tree

  /** Every node of the tree, each before its descendants, children in
      enumeration order. */
  function PreOrder(n: Node): (ns: seq<Node>)
    ensures |ns| > 0 && ns[0] == n
    decreases n, NumChildren(n) + 1
  {
    [n] + PreOrderFrom(n, 0)
  }

  /** The pre-order listings of the children of `n` from the `i`-th on. */
  function PreOrderFrom(n: Node, i: nat): seq<Node>
    requires i <= NumChildren(n)
    decreases n, NumChildren(n) - i
  {
    if i == NumChildren(n) then []
    else PreOrder(ChildAt(n, i)) + PreOrderFrom(n, i + 1)
  }

  /** The verdict of the first deciding node of `ns`, or `null`. */
  function FirstDecision(ns: seq<Node>): (r: Result<Option<Node>>)
    ensures r == Success(None) <==> forall j :: 0 <= j < |ns| ==> !Decides(ns[j])
    ensures forall k :: 0 <= k < |ns| && Decides(ns[k]) && (forall j :: 0 <= j < k ==> !Decides(ns[j])) ==>
                          r == Verdict(ns[k])
  {
    if ns == [] then Success(None)
    else if Decides(ns[0]) then Verdict(ns[0])
    else
      var r := FirstDecision(ns[1..]);
      assert forall j :: 1 <= j < |ns| ==> ns[j] == ns[1..][j - 1];
      r
  }

  /** A verdict other than `null` is that of the first deciding node. */
  lemma {:induction false} FirstDecisionFound(ns: seq<Node>)
    requires FirstDecision(ns) != Success(None)
    ensures exists k :: 0 <= k < |ns| && Decides(ns[k]) && FirstDecision(ns) == Verdict(ns[k])
                        && forall j :: 0 <= j < k ==> !Decides(ns[j])
  {
    if Decides(ns[0]) {
      assert FirstDecision(ns) == Verdict(ns[0]);
    } else {
      var rest := ns[1..];
      FirstDecisionFound(rest);
      var k :| 0 <= k < |rest| && Decides(rest[k]) && FirstDecision(rest) == Verdict(rest[k])
               && forall j :: 0 <= j < k ==> !Decides(rest[j]);
      assert FirstDecision(ns) == FirstDecision(rest);
      forall j | 0 <= j < k + 1
        ensures !Decides(ns[j])
      {
        if j > 0 {
          assert ns[j] == rest[j - 1];
        }
      }
      assert ns[k + 1] == rest[k];
    }
  }

  lemma {:induction false} FirstDecisionAppend(a: seq<Node>, b: seq<Node>)
    ensures FirstDecision(a + b) ==
              if FirstDecision(a) != Success(None) then FirstDecision(a) else FirstDecision(b)
  {
    if a != [] {
      assert (a + b)[1..] == a[1..] + b;
      FirstDecisionAppend(a[1..], b);
    } else {
      assert a + b == b;
    }
  }

  /** A scalar or `null` is never searched, and nothing decides in it. */
  lemma {:induction false} NonObjectNotSearched(n: Node)
    requires !IsObject(n)
    ensures Find(n) == Success(None) && PreOrder(n) == [n] && !Decides(n)
  {
  }

  /** The search the code performs ends with the verdict of the first
      deciding node of the pre-order listing. */
  lemma {:induction false} FindIsFirstDecision(n: Node)
    ensures Find(n) == FirstDecision(PreOrder(n))
    decreases n, NumChildren(n) + 1
  {
    if !IsObject(n) {
      NonObjectNotSearched(n);
    } else if Decides(n) {
    } else {
      FindFromIsFirstDecision(n, 0);
      FirstDecisionAppend([n], PreOrderFrom(n, 0));
    }
  }

  lemma {:induction false} FindFromIsFirstDecision(n: Node, i: nat)
    requires i <= NumChildren(n)
    ensures FindFrom(n, i) == FirstDecision(PreOrderFrom(n, i))
    decreases n, NumChildren(n) - i
  {
    if i < NumChildren(n) {
      FindIsFirstDecision(ChildAt(n, i));
      FindFromIsFirstDecision(n, i + 1);
      FirstDecisionAppend(PreOrder(ChildAt(n, i)), PreOrderFrom(n, i + 1));
    }
  }

  /** The search comes back with `null` exactly when no node anywhere in
      the tree matches or is shadowed. */
  lemma {:induction false} NotFoundIff(n: Node)
    ensures Find(n) == Success(None) <==> forall j :: 0 <= j < |PreOrder(n)| ==> !Decides(PreOrder(n)[j])
  {
    FindIsFirstDecision(n);
  }

  /** The first deciding node in pre-order settles the outcome: its
      boundary when it matches, the TypeError otherwise. Nodes after it are
      never reached. */
  lemma {:induction false} FirstInPreOrderWins(n: Node, k: nat)
    requires k < |PreOrder(n)| && Decides(PreOrder(n)[k])
    requires forall j :: 0 <= j < k ==> !Decides(PreOrder(n)[j])
    ensures Find(n) == Verdict(PreOrder(n)[k])
  {
    FindIsFirstDecision(n);
  }

  /** In a tree where no object has its own `hasOwnProperty` entry the
      search never throws. */
  lemma {:induction false} NoShadowNoThrow(n: Node)
    requires forall j :: 0 <= j < |PreOrder(n)| ==> !Shadowed(PreOrder(n)[j])
    ensures Find(n).Success?
  {
    FindIsFirstDecision(n);
    if Find(n) != Success(None) {
      FirstDecisionFound(PreOrder(n));
    }
  }

  /** A node's own boundary takes precedence over anything below it, and
      over its own `hasOwnProperty` entry. */
  lemma {:induction false} SelfBeforeChildren(n: Node)
    requires Matches(n)
    ensures Find(n) == Success(Boundary(n))
  {
  }

  // ---------------------------------------------------------------
  // Reach: the search goes to every depth

  /** The node reached from `n` by following child indices. */
  function Descendant(n: Node, path: seq<nat>): Option<Node>
    decreases |path|
  {
    if path == [] then Some(n)
    else if path[0] < NumChildren(n) then Descendant(ChildAt(n, path[0]), path[1..])
    else None
  }

  lemma {:induction false} FindFromSkipsNothing(n: Node, i: nat, j: nat)
    requires i <= j < NumChildren(n)
    requires FindFrom(n, i) == Success(None)
    ensures Find(ChildAt(n, j)) == Success(None)
    decreases j - i
  {
    if i < j {
      FindFromSkipsNothing(n, i + 1, j);
    }
  }

  /** A matching or shadowed node at any depth, under any mixture of
      arrays and objects, keeps the search from coming back with `null`. */
  lemma {:induction false} DecisionAtAnyDepth(n: Node, path: seq<nat>)
    requires Descendant(n, path).Some? && Decides(Descendant(n, path).value)
    ensures Find(n) != Success(None)
    decreases |path|
  {
    if path != [] {
      DecisionAtAnyDepth(ChildAt(n, path[0]), path[1..]);
      if !Decides(n) && Find(n) == Success(None) {
        FindFromSkipsNothing(n, 0, path[0]);
      }
    }
  }

  /** Conversely, whatever the search ends with other than `null` is the
      verdict of a deciding node somewhere in the tree; a value found is
      that node's truthy boundary. */
  lemma {:induction false} FoundAt(n: Node) returns (path: seq<nat>)
    requires Find(n) != Success(None)
    ensures Descendant(n, path).Some? && Decides(Descendant(n, path).value)
    ensures Find(n) == Verdict(Descendant(n, path).value)
    ensures Find(n).Success? ==> Find(n).value.Some? && Truthy(Find(n).value.value)
    decreases n, NumChildren(n) + 1
  {
    if Decides(n) {
      path := [];
    } else {
      var i := FoundFrom(n, 0);
      var p := FoundAt(ChildAt(n, i));
      path := [i] + p;
      assert path[1..] == p;
    }
  }

  lemma {:induction false} FoundFrom(n: Node, i: nat) returns (j: nat)
    requires i <= NumChildren(n) && FindFrom(n, i) != Success(None)
    ensures i <= j < NumChildren(n) && Find(ChildAt(n, j)) == FindFrom(n, i)
    decreases NumChildren(n) - i
  {
    if Find(ChildAt(n, i)) != Success(None) {
      j := i;
    } else {
      j := FoundFrom(n, i + 1);
    }
  }

  // ---------------------------------------------------------------
  // Examples in the shape the XML parser gives KML documents

  function Ring(coordinates: Node): Node {
    Map([("LinearRing", Map([("coordinates", coordinates)]))])
  }

  function OuterPolygon(coordinates: string): Node {
    Map([("outerBoundaryIs", Ring(Scalar(coordinates)))])
  }

  function Placemark(coordinates: string): Node {
    Map([("name", Scalar("area")), ("Polygon", OuterPolygon(coordinates))])
  }

  /** The search through an object with a single entry that neither
      matches nor is shadowed is the search through that entry's value. */
  lemma {:induction false} ThroughSingleEntry(key: string, c: Node)
    requires !Matches(Map([(key, c)])) && key != "hasOwnProperty"
    ensures Find(Map([(key, c)])) == Find(c)
  {
    var n := Map([(key, c)]);
    assert !Shadowed(n);
    assert ChildAt(n, 0) == c;
    assert FindFrom(n, 1) == Success(None);
    assert Find(n) == FindFrom(n, 0);
  }

  /** The search through a two-element array. */
  lemma {:induction false} ThroughPair(a: Node, b: Node)
    ensures Find(List([a, b])) == if Find(a) != Success(None) then Find(a) else Find(b)
  {
    var n := List([a, b]);
    assert !Matches(n) && !Shadowed(n);
    assert ChildAt(n, 0) == a && ChildAt(n, 1) == b;
    assert FindFrom(n, 2) == Success(None);
    assert FindFrom(n, 1) == Find(b);
    assert Find(n) == FindFrom(n, 0);
  }

  /** The search through an object with two entries, neither of them a
      `Polygon` or a `hasOwnProperty` entry. */
  lemma {:induction false} ThroughTwoEntries(k0: string, a: Node, k1: string, b: Node)
    requires k0 != "Polygon" && k0 != "hasOwnProperty"
    requires k1 != "Polygon" && k1 != "hasOwnProperty"
    ensures Find(Map([(k0, a), (k1, b)])) == if Find(a) != Success(None) then Find(a) else Find(b)
  {
    var n := Map([(k0, a), (k1, b)]);
    assert n.entries[1..] == [(k1, b)];
    assert !Matches(n) && !Shadowed(n);
    assert ChildAt(n, 0) == a && ChildAt(n, 1) == b;
    assert FindFrom(n, 2) == Success(None);
    assert FindFrom(n, 1) == Find(b);
    assert Find(n) == FindFrom(n, 0);
  }

  lemma {:induction false} PlacemarkFound(coordinates: string)
    ensures Find(Placemark(coordinates)) ==
      if coordinates == "" then Success(None) else Success(Some(Scalar(coordinates)))
  {
    var p := Placemark(coordinates);
    BoundaryOfPolygon(p, coordinates);
    if coordinates == "" {
      EmptyPlacemarkNotFound(p);
    }
  }

  /** The chain of property accesses reaches a placemark's coordinates. */
  lemma {:induction false} BoundaryOfPolygon(p: Node, coordinates: string)
    requires p == Placemark(coordinates)
    ensures Boundary(p) == Some(Scalar(coordinates))
  {
    var text := Scalar(coordinates);
    var ring := Map([("coordinates", text)]);
    assert Path(ring, ["coordinates"]) == Some(text) by {
      assert ["coordinates"][1..] == [];
    }
    assert Path(Ring(text), ["LinearRing", "coordinates"]) == Some(text) by {
      assert ["LinearRing", "coordinates"][1..] == ["coordinates"];
    }
    assert Path(OuterPolygon(coordinates), BoundaryPath[1..]) == Some(text) by {
      assert BoundaryPath[1..][1..] == ["LinearRing", "coordinates"];
    }
    assert Lookup(p.entries[1..], "Polygon") == Some(OuterPolygon(coordinates)) by {
      assert p.entries[1..][0] == ("Polygon", OuterPolygon(coordinates));
    }
    assert Get(p, "Polygon") == Some(OuterPolygon(coordinates));
  }

  /** A placemark with empty coordinates is searched child by child, and
      neither child holds a polygon. */
  lemma {:induction false} EmptyPlacemarkNotFound(p: Node)
    requires p == Placemark("")
    ensures Find(p) == Success(None)
  {
    var poly := OuterPolygon("");
    assert ChildAt(p, 0) == Scalar("area") && ChildAt(p, 1) == poly;
    assert !Matches(p) by {
      BoundaryOfPolygon(p, "");
    }
    assert !Shadowed(p) by {
      assert Lookup(p.entries[1..], "hasOwnProperty") == None by {
        assert p.entries[1..][0].0 == "Polygon";
      }
    }
    OuterPolygonNotFound("");
    assert FindFrom(p, 2) == Success(None);
    assert FindFrom(p, 1) == Success(None);
  }

  /** `{k0: {k1: ... {kn: c}}}`: `c` wrapped in one single-entry object
      per key. */
  function Nest(keys: seq<string>, c: Node): Node
    decreases |keys|
  {
    if keys == [] then c else Map([(keys[0], Nest(keys[1..], c))])
  }

  /** Wrapping under keys other than `Polygon` and `hasOwnProperty` does
      not change what the search ends with. */
  lemma {:induction false} NestFound(keys: seq<string>, c: Node)
    requires forall i :: 0 <= i < |keys| ==> keys[i] != "Polygon" && keys[i] != "hasOwnProperty"
    ensures Find(Nest(keys, c)) == Find(c)
    decreases |keys|
  {
    if keys != [] {
      var inner := Nest(keys[1..], c);
      NestFound(keys[1..], c);
      assert Get(Map([(keys[0], inner)]), "Polygon") == None;
      ThroughSingleEntry(keys[0], inner);
    }
  }

  /** A polygon six levels down, under Document, Folder, Placemark and
      MultiGeometry, is found. */
  lemma ExampleDeepPolygon()
    ensures Find(Nest(["kml", "Document", "Folder", "Placemark", "MultiGeometry"],
                      Map([("Polygon", OuterPolygon("1,2 3,4"))])))
            == Success(Some(Scalar("1,2 3,4")))
  {
    var m := Map([("Polygon", OuterPolygon("1,2 3,4"))]);
    assert Find(m) == Success(Some(Scalar("1,2 3,4")));
    NestFound(["kml", "Document", "Folder", "Placemark", "MultiGeometry"], m);
  }

  /** Of two placemarks, only the first one's polygon is returned. */
  lemma ExampleFirstPlacemarkWins()
    ensures Find(Map([("Document", Map([("Placemark",
              List([Placemark("1,2"), Placemark("3,4")]))]))]))
            == Success(Some(Scalar("1,2")))
  {
    PlacemarkFound("1,2");
    ThroughPair(Placemark("1,2"), Placemark("3,4"));
    ThroughSingleEntry("Placemark", List([Placemark("1,2"), Placemark("3,4")]));
    ThroughSingleEntry("Document", Map([("Placemark", List([Placemark("1,2"), Placemark("3,4")]))]));
  }

  /** An empty `coordinates` is falsy, so the search goes on to the next
      placemark. */
  lemma ExampleEmptyCoordinatesSkipped()
    ensures Find(Map([("Document", Map([("Placemark",
              List([Placemark(""), Placemark("3,4")]))]))]))
            == Success(Some(Scalar("3,4")))
  {
    var placemarks := List([Placemark(""), Placemark("3,4")]);
    PlacemarkFound("");
    PlacemarkFound("3,4");
    ThroughPair(Placemark(""), Placemark("3,4"));
    ThroughSingleEntry("Placemark", placemarks);
    ThroughSingleEntry("Document", Map([("Placemark", placemarks)]));
  }

  /** The polygon extracted is the first in the parsed tree's pre-order,
      which need not be the first in the document. In
      `<Placemark/><Folder><Placemark>A</Placemark></Folder><Placemark>B</Placemark>`
      the second top-level placemark joins the first one's array ahead of
      the folder, so B is found although A comes first in the document. */
  lemma ExampleRepeatedNameAheadOfFolder()
    ensures Find(Map([("Document", Map([
              ("Placemark", List([Placemark(""), Placemark("5,6")])),
              ("Folder", Map([("Placemark", Placemark("1,2"))]))]))]))
            == Success(Some(Scalar("5,6")))
  {
    var placemarks := List([Placemark(""), Placemark("5,6")]);
    var folder := Map([("Placemark", Placemark("1,2"))]);
    PlacemarkFound("");
    PlacemarkFound("5,6");
    ThroughPair(Placemark(""), Placemark("5,6"));
    ThroughTwoEntries("Placemark", placemarks, "Folder", folder);
    ThroughSingleEntry("Document", Map([("Placemark", placemarks), ("Folder", folder)]));
  }

  /** Only the outer boundary is consulted: a polygon with nothing but an
      inner boundary is not found. */
  lemma ExampleInnerBoundaryIgnored()
    ensures Find(Map([("Placemark", Map([("Polygon",
              Map([("innerBoundaryIs", Ring(Scalar("1,2")))]))]))]))
            == Success(None)
  {
    var ring := Ring(Scalar("1,2"));
    ThroughSingleEntry("coordinates", Scalar("1,2"));
    ThroughSingleEntry("LinearRing", Map([("coordinates", Scalar("1,2"))]));
    ThroughSingleEntry("innerBoundaryIs", ring);
    ThroughSingleEntry("Polygon", Map([("innerBoundaryIs", ring)]));
    ThroughSingleEntry("Placemark", Map([("Polygon", Map([("innerBoundaryIs", ring)]))]));
  }

  /** Two `Polygon` elements under one parent arrive as an array, which has
      no `outerBoundaryIs` property, and no object below it has a `Polygon`
      key: the search finds nothing. */
  lemma ExampleSiblingPolygonsNotFound()
    ensures Find(Map([("MultiGeometry", Map([("Polygon",
              List([OuterPolygon("1,2"), OuterPolygon("3,4")]))]))]))
            == Success(None)
  {
    OuterPolygonNotFound("1,2");
    OuterPolygonNotFound("3,4");
    ThroughPair(OuterPolygon("1,2"), OuterPolygon("3,4"));
    ThroughSingleEntry("Polygon", List([OuterPolygon("1,2"), OuterPolygon("3,4")]));
    ThroughSingleEntry("MultiGeometry", Map([("Polygon", List([OuterPolygon("1,2"), OuterPolygon("3,4")]))]));
  }

  /** An element named `hasOwnProperty` ahead of the placemark makes the
      walk throw before the placemark is reached. */
  lemma ExampleShadowedObjectThrows()
    ensures Find(Map([("hasOwnProperty", Scalar("x")), ("Placemark", Placemark("1,2"))]))
            == Failure(HasOwnPropertyNotAFunction)
  {
    var n := Map([("hasOwnProperty", Scalar("x")), ("Placemark", Placemark("1,2"))]);
    assert Get(n, "Polygon") == None by {
      assert n.entries[1..][0].0 == "Placemark";
    }
    assert Shadowed(n);
  }

  /** A polygon element that also has a `hasOwnProperty` entry is found:
      its own chain is tested before its loop runs. */
  lemma ExampleShadowedMatchFound()
    ensures Find(Map([("Polygon", OuterPolygon("1,2")), ("hasOwnProperty", Scalar("x"))]))
            == Success(Some(Scalar("1,2")))
  {
    var n := Map([("Polygon", OuterPolygon("1,2")), ("hasOwnProperty", Scalar("x"))]);
    var p := Placemark("1,2");
    BoundaryOfPolygon(p, "1,2");
    assert Get(n, "Polygon") == Get(p, "Polygon");
    assert Boundary(n) == Boundary(p);
  }

  /** A polygon element's own value has no `Polygon` key anywhere inside. */
  lemma {:induction false} OuterPolygonNotFound(coordinates: string)
    ensures Find(OuterPolygon(coordinates)) == Success(None)
  {
    ThroughSingleEntry("coordinates", Scalar(coordinates));
    ThroughSingleEntry("LinearRing", Map([("coordinates", Scalar(coordinates))]));
    ThroughSingleEntry("outerBoundaryIs", Ring(Scalar(coordinates)));
  }
}
