/** The coordinate step of `extractPolygonCoordinates`
    (DroneController/services/kmlParser.js): the text of a KML
    `coordinates` element is trimmed, split on runs of whitespace, each
    token is split on commas as `lon,lat[,alt]`, and tokens with fewer
    than two fields are dropped. This is the tuple syntax of the
    `kml:coordinates` element of OGC KML 2.2 (OGC 07-147r2). */
module Coordinates {
  import opened Wrappers

  /** The characters JavaScript's `trim()` removes and `\s` matches: the
      WhiteSpace and LineTerminator code points of ECMAScript. */
  predicate IsWhitespace(c: char) {
    if c <= ' ' then c == ' ' || '\t' <= c <= '\r'  // tab, line feed, vertical tab, form feed, carriage return
    else if c < '\U{00A0}' then false
    else
      || c == '\U{00A0}' || c == '\U{1680}' || '\U{2000}' <= c <= '\U{200A}'
      || c == '\U{2028}' || c == '\U{2029}' || c == '\U{202F}' || c == '\U{205F}'
      || c == '\U{3000}' || c == '\U{FEFF}'
  }

  predicate AllWhitespace(s: string) {
    forall k :: 0 <= k < |s| ==> IsWhitespace(s[k])
  }

  predicate NoWhitespace(s: string) {
    forall k :: 0 <= k < |s| ==> !IsWhitespace(s[k])
  }

  // ---------------------------------------------------------------
  // trim()

  /** Drops the leading whitespace. */
  function TrimStart(s: string): (r: string)
    ensures |r| <= |s| && r == s[|s| - |r|..]
    ensures AllWhitespace(s[..|s| - |r|])
    ensures r == [] || !IsWhitespace(r[0])
  {
    if s != [] && IsWhitespace(s[0]) then
      var r := TrimStart(s[1..]);
      assert s[1..][..|s| - 1 - |r|] == s[1..|s| - |r|];
      r
    else s
  }

  /** Drops the trailing whitespace. */
  function TrimEnd(s: string): (r: string)
    ensures |r| <= |s| && r == s[..|r|]
    ensures AllWhitespace(s[|r|..])
    ensures r == [] || !IsWhitespace(r[|r| - 1])
  {
    if s != [] && IsWhitespace(s[|s| - 1]) then
      var init := s[..|s| - 1];
      var r := TrimEnd(init);
      assert init[..|r|] == s[..|r|];
      WhitespaceExtended(init[|r|..], s[|s| - 1]);
      assert s[|r|..] == init[|r|..] + [s[|s| - 1]];
      r
    else s
  }

  lemma {:induction false} WhitespaceExtended(w: string, c: char)
    requires AllWhitespace(w) && IsWhitespace(c)
    ensures AllWhitespace(w + [c])
  {
    assert forall k :: 0 <= k < |w| ==> (w + [c])[k] == w[k];
  }

  /** `s.trim()`: whitespace removed at both ends; the result neither
      starts nor ends with whitespace. */
  function Trim(s: string): (r: string)
    ensures |r| <= |s|
    ensures r == [] || (!IsWhitespace(r[0]) && !IsWhitespace(r[|r| - 1]))
  {
    TrimEnd(TrimStart(s))
  }

  /** What `trim()` keeps is the slice of the text that starts where the
      leading whitespace ends, with only whitespace after it. */
  lemma {:induction false} TrimIsSlice(s: string)
    ensures var i := |s| - |TrimStart(s)|; var r := Trim(s);
            && i + |r| <= |s| && s[i..i + |r|] == r
            && AllWhitespace(s[..i]) && AllWhitespace(s[i + |r|..])
  {
    TrimKeepsMiddle(s, TrimStart(s));
    TrimDropsTrailing(s, TrimStart(s));
  }

  lemma {:induction false} TrimKeepsMiddle(s: string, a: string)
    requires a == TrimStart(s)
    ensures var i := |s| - |a|; i + |Trim(s)| <= |s| && s[i..i + |Trim(s)|] == Trim(s)
  {
    var r := TrimEnd(a);
    SliceOfSuffix(s, |s| - |a|, a, |r|);
  }

  lemma {:induction false} TrimDropsTrailing(s: string, a: string)
    requires a == TrimStart(s)
    ensures var i := |s| - |a|; i + |Trim(s)| <= |s| && AllWhitespace(s[i + |Trim(s)|..])
  {
    var r := TrimEnd(a);
    SliceOfSuffix(s, |s| - |a|, a, |r|);
  }

  /** Slicing a suffix of `s` is slicing `s` itself further up. */
  lemma {:induction false} SliceOfSuffix(s: string, i: nat, a: string, n: nat)
    requires i <= |s| && a == s[i..] && n <= |a|
    ensures s[i..i + n] == a[..n] && s[i + n..] == a[n..]
  {
  }

  /** Trimming removes exactly the whitespace around a core that neither
      starts nor ends with whitespace. */
  lemma {:induction false} TrimPadded(lead: string, core: string, trail: string)
    requires AllWhitespace(lead) && AllWhitespace(trail)
    requires core != [] && !IsWhitespace(core[0]) && !IsWhitespace(core[|core| - 1])
    ensures Trim(lead + core + trail) == core
  {
    TrimStartPadded(lead, core + trail);
    assert lead + core + trail == lead + (core + trail);
    TrimEndPadded(core, trail);
  }

  lemma {:induction false} TrimStartPadded(lead: string, rest: string)
    requires AllWhitespace(lead)
    requires rest == [] || !IsWhitespace(rest[0])
    ensures TrimStart(lead + rest) == rest
  {
    if lead != [] {
      assert (lead + rest)[1..] == lead[1..] + rest;
      TrimStartPadded(lead[1..], rest);
    } else {
      assert lead + rest == rest;
    }
  }

  lemma {:induction false} TrimEndPadded(rest: string, trail: string)
    requires AllWhitespace(trail)
    requires rest == [] || !IsWhitespace(rest[|rest| - 1])
    ensures TrimEnd(rest + trail) == rest
  {
    if trail != [] {
      assert (rest + trail)[..|rest + trail| - 1] == rest + trail[..|trail| - 1];
      TrimEndPadded(rest, trail[..|trail| - 1]);
    } else {
      assert rest + trail == rest;
    }
  }

  // ---------------------------------------------------------------
  // split(/\s+/) and split(',')

  /** The concatenation of `parts` with `sep` between neighbours
      (`Array.prototype.join`). */
  function Join(parts: seq<string>, sep: string): string {
    if parts == [] then ""
    else if |parts| == 1 then parts[0]
    else parts[0] + sep + Join(parts[1..], sep)
  }

  /** Whitespace runs fit to go between tokens: non-empty, all whitespace. */
  predicate Separators(seps: seq<string>) {
    forall k :: 0 <= k < |seps| ==> seps[k] != "" && AllWhitespace(seps[k])
  }

  /** The tokens `ts` with `seps[k]` between `ts[k]` and `ts[k + 1]`, so
      that every gap may hold a different run. */
  function JoinWith(ts: seq<string>, seps: seq<string>): string
    requires |seps| + 1 == |ts|
    decreases |ts|
  {
    if |ts| == 1 then ts[0] else ts[0] + seps[0] + JoinWith(ts[1..], seps[1..])
  }

  /** The index of the first whitespace character of `s`, or `|s|`. */
  function FirstWhitespace(s: string): (i: nat)
    ensures i <= |s| && NoWhitespace(s[..i])
    ensures i < |s| ==> IsWhitespace(s[i])
  {
    if s == [] || IsWhitespace(s[0]) then 0
    else
      var i := 1 + FirstWhitespace(s[1..]);
      assert s[..i] == [s[0]] + s[1..][..i - 1];
      i
  }

  /** `s.split(/\s+/)`: the pieces between maximal runs of whitespace; a
      run at either end leaves an empty piece there, and `""` gives `[""]`. */
  function SplitWhitespace(s: string): (ts: seq<string>)
    ensures |ts| > 0
    ensures forall k :: 0 <= k < |ts| ==> NoWhitespace(ts[k])
    decreases |s|
  {
    var i := FirstWhitespace(s);
    if i == |s| then
      assert s[..i] == s;
      [s]
    else
      var rest := TrimStart(s[i..]);
      [s[..i]] + SplitWhitespace(rest)
  }

  /** Splitting a trimmed, non-empty text gives only non-empty tokens. */
  lemma {:induction false} SplitTrimmedNonEmpty(s: string)
    requires s != [] && !IsWhitespace(s[0]) && !IsWhitespace(s[|s| - 1])
    ensures forall k :: 0 <= k < |SplitWhitespace(s)| ==> SplitWhitespace(s)[k] != ""
    decreases |s|
  {
    var i := FirstWhitespace(s);
    if i < |s| {
      var rest := TrimStart(s[i..]);
      assert rest != [] && rest[|rest| - 1] == s[|s| - 1] by {
        assert s[|s| - 1] == s[i..][|s[i..]| - 1];
        assert !AllWhitespace(s[i..]);
      }
      SplitTrimmedNonEmpty(rest);
    }
  }

  /** The round trip: non-empty whitespace-free tokens joined with a
      whitespace run in every gap, each gap its own, split back into the
      same tokens. */
  lemma {:induction false} SplitJoinWhitespace(ts: seq<string>, seps: seq<string>)
    requires |seps| + 1 == |ts|
    requires forall k :: 0 <= k < |ts| ==> ts[k] != "" && NoWhitespace(ts[k])
    requires Separators(seps)
    ensures SplitWhitespace(JoinWith(ts, seps)) == ts
    decreases |ts|
  {
    if |ts| == 1 {
      assert FirstWhitespace(ts[0]) == |ts[0]|;
      assert ts[0][..|ts[0]|] == ts[0];
    } else {
      SplitJoinStep(ts, seps);
      SplitJoinWhitespace(ts[1..], seps[1..]);
      assert ts == [ts[0]] + ts[1..];
    }
  }

  /** The first token of a join is the first piece of its split. */
  lemma {:induction false} SplitJoinStep(ts: seq<string>, seps: seq<string>)
    requires |seps| + 1 == |ts| && |ts| >= 2
    requires forall k :: 0 <= k < |ts| ==> ts[k] != "" && NoWhitespace(ts[k])
    requires Separators(seps)
    ensures SplitWhitespace(JoinWith(ts, seps)) == [ts[0]] + SplitWhitespace(JoinWith(ts[1..], seps[1..]))
  {
    var sep := seps[0];
    var tail := JoinWith(ts[1..], seps[1..]);
    assert JoinWith(ts, seps) == ts[0] + (sep + tail);
    FirstWhitespaceAfter(ts[0], sep + tail);
    JoinStartsNonWhitespace(ts[1..], seps[1..]);
    SplitAtFirstWhitespace(ts[0], sep, tail);
  }

  /** The other direction: the pieces of any text, with the whitespace
      runs the split consumed put back between them, rebuild the text. So
      every text has the shape `SplitJoinWhitespace` speaks about. */
  lemma {:induction false} SplitRebuilds(s: string) returns (seps: seq<string>)
    ensures |seps| + 1 == |SplitWhitespace(s)| && Separators(seps)
    ensures JoinWith(SplitWhitespace(s), seps) == s
    decreases |s|
  {
    var i := FirstWhitespace(s);
    if i == |s| {
      assert s[..i] == s;
      seps := [];
    } else {
      var run, rest := SplitStep(s);
      var more := SplitRebuilds(rest);
      seps := [run] + more;
      SeparatorsCons(run, more);
      JoinWithCons(s[..i], SplitWhitespace(rest), run, more);
    }
  }

  /** What one step of `split(/\s+/)` consumes: the first piece, then a
      non-empty whitespace run, then the text the rest of the split sees. */
  lemma {:induction false} SplitStep(s: string) returns (run: string, rest: string)
    requires FirstWhitespace(s) < |s|
    ensures run != "" && AllWhitespace(run)
    ensures s == s[..FirstWhitespace(s)] + (run + rest)
    ensures SplitWhitespace(s) == [s[..FirstWhitespace(s)]] + SplitWhitespace(rest)
  {
    var i := FirstWhitespace(s);
    var after := s[i..];
    rest := TrimStart(after);
    var n := |after| - |rest|;
    assert n > 0 by {
      assert IsWhitespace(after[0]);
      assert rest == TrimStart(after[1..]);
    }
    run := after[..n];
    Rejoin(after, n);
    Rejoin(s, i);
  }

  lemma {:induction false} SeparatorsCons(run: string, more: seq<string>)
    requires run != "" && AllWhitespace(run) && Separators(more)
    ensures Separators([run] + more)
  {
    assert forall k :: 1 <= k < |more| + 1 ==> ([run] + more)[k] == more[k - 1];
  }

  lemma {:induction false} Rejoin(a: string, n: nat)
    requires n <= |a|
    ensures a[..n] + a[n..] == a
  {
  }

  lemma {:induction false} JoinWithCons(t: string, ts: seq<string>, sep: string, seps: seq<string>)
    requires |seps| + 1 == |ts|
    ensures JoinWith([t] + ts, [sep] + seps) == t + (sep + JoinWith(ts, seps))
  {
    assert ([t] + ts)[1..] == ts && ([sep] + seps)[1..] == seps;
  }

  /** One step of the round trip: a token, a separator and the rest. */
  lemma {:induction false} SplitAtFirstWhitespace(t: string, sep: string, tail: string)
    requires NoWhitespace(t) && sep != "" && AllWhitespace(sep)
    requires tail != [] && !IsWhitespace(tail[0])
    requires FirstWhitespace(t + (sep + tail)) == |t|
    ensures SplitWhitespace(t + (sep + tail)) == [t] + SplitWhitespace(tail)
  {
    var s := t + (sep + tail);
    assert s[..|t|] == t;
    assert s[|t|..] == sep + tail;
    TrimStartPadded(sep, tail);
  }

  lemma {:induction false} FirstWhitespaceAfter(t: string, rest: string)
    requires NoWhitespace(t)
    requires rest != [] && IsWhitespace(rest[0])
    ensures FirstWhitespace(t + rest) == |t|
  {
    if t != [] {
      assert (t + rest)[1..] == t[1..] + rest;
      FirstWhitespaceAfter(t[1..], rest);
    } else {
      assert t + rest == rest;
    }
  }

  lemma {:induction false} JoinStartsNonWhitespace(ts: seq<string>, seps: seq<string>)
    requires |seps| + 1 == |ts|
    requires forall k :: 0 <= k < |ts| ==> ts[k] != "" && NoWhitespace(ts[k])
    ensures JoinWith(ts, seps) != [] && !IsWhitespace(JoinWith(ts, seps)[0])
  {
    if |ts| > 1 {
      assert JoinWith(ts, seps)[0] == ts[0][0];
    }
  }

  lemma {:induction false} JoinEndsNonWhitespace(ts: seq<string>, seps: seq<string>)
    requires |seps| + 1 == |ts|
    requires forall k :: 0 <= k < |ts| ==> ts[k] != "" && NoWhitespace(ts[k])
    ensures JoinWith(ts, seps) != [] && !IsWhitespace(JoinWith(ts, seps)[|JoinWith(ts, seps)| - 1])
    decreases |ts|
  {
    if |ts| > 1 {
      JoinEndsNonWhitespace(ts[1..], seps[1..]);
      var tail := JoinWith(ts[1..], seps[1..]);
      assert JoinWith(ts, seps)[|JoinWith(ts, seps)| - 1] == tail[|tail| - 1];
    }
  }

  /** The index of the first `sep` in `s`, or `|s|`. */
  function IndexOf(s: string, sep: char): (i: nat)
    ensures i <= |s| && sep !in s[..i]
    ensures i < |s| ==> s[i] == sep
  {
    if s == [] || s[0] == sep then 0
    else
      var i := 1 + IndexOf(s[1..], sep);
      assert s[..i] == [s[0]] + s[1..][..i - 1];
      i
  }

  /** `s.split(sep)` for a one-character separator: the separator-free
      pieces which, joined with the separator, give `s` back; there are two
      or more exactly when `s` contains the separator. */
  function SplitOn(s: string, sep: char): (parts: seq<string>)
    ensures |parts| > 0
    ensures forall k :: 0 <= k < |parts| ==> sep !in parts[k]
    ensures Join(parts, [sep]) == s
    ensures |parts| >= 2 <==> sep in s
    decreases |s|
  {
    var i := IndexOf(s, sep);
    if i == |s| then
      assert s[..i] == s;
      [s]
    else
      var tail := SplitOn(s[i + 1..], sep);
      var parts := [s[..i]] + tail;
      assert parts[1..] == tail;
      assert s == s[..i] + [sep] + s[i + 1..];
      parts
  }

  /** The other round trip: separator-free pieces joined with the separator
      split back into the same pieces. */
  lemma {:induction false} SplitJoinOn(parts: seq<string>, sep: char)
    requires |parts| > 0
    requires forall k :: 0 <= k < |parts| ==> sep !in parts[k]
    ensures SplitOn(Join(parts, [sep]), sep) == parts
  {
    if |parts| == 1 {
      assert IndexOf(parts[0], sep) == |parts[0]|;
    } else {
      var s := Join(parts, [sep]);
      var tail := Join(parts[1..], [sep]);
      assert s == parts[0] + ([sep] + tail);
      IndexOfAfter(parts[0], sep, [sep] + tail);
      var i := |parts[0]|;
      assert s[..i] == parts[0];
      assert s[i + 1..] == tail;
      SplitJoinOn(parts[1..], sep);
    }
  }

  lemma {:induction false} IndexOfAfter(t: string, sep: char, rest: string)
    requires sep !in t
    requires rest != [] && rest[0] == sep
    ensures IndexOf(t + rest, sep) == |t|
  {
    if t != [] {
      assert (t + rest)[1..] == t[1..] + rest;
      IndexOfAfter(t[1..], sep, rest);
    } else {
      assert t + rest == rest;
    }
  }

  // ---------------------------------------------------------------
  // Vertices

  /** The value `parseFloat(text)` gives, kept symbolic: the model never
      evaluates it, so it only says which text a number came from. `Zero`
      is the literal `0` used for a missing altitude. */
  datatype Num = ParseFloat(text: string) | Zero

  /** `{lat, lon, alt}`. */
  datatype Vertex = Vertex(lat: Num, lon: Num, alt: Num)

  /** The callback of `.map(...)`: `null` for a token with fewer than two
      comma fields, otherwise the vertex built from fields 1, 0 and 2. */
  function TokenVertex(token: string): Option<Vertex> {
    var parts := SplitOn(token, ',');
    if |parts| >= 2 then
      Some(Vertex(
        lat := ParseFloat(parts[1]),
        lon := ParseFloat(parts[0]),
        alt := if |parts| > 2 && parts[2] != "" then ParseFloat(parts[2]) else Zero))
    else None
  }

  /** The callback gives a vertex exactly for the tokens holding a comma. */
  lemma {:induction false} TokenVertexIff(token: string)
    ensures TokenVertex(token).Some? <==> ',' in token
  {
    var parts := SplitOn(token, ',');
    assert |parts| >= 2 <==> ',' in token;
  }

  /** The tokens the `.filter(...)` keeps: those holding a comma. */
  function Surviving(tokens: seq<string>): (kept: seq<string>)
    ensures |kept| <= |tokens|
    ensures forall k :: 0 <= k < |kept| ==> ',' in kept[k]
  {
    if tokens == [] then []
    else if ',' in tokens[0] then [tokens[0]] + Surviving(tokens[1..])
    else Surviving(tokens[1..])
  }

  /** `.map(...).filter(coord => coord !== null)`: one vertex for every token
      holding a comma, in token order. */
  function TokenVertices(tokens: seq<string>): (vs: seq<Vertex>)
    ensures |vs| == |Surviving(tokens)|
    ensures forall k :: 0 <= k < |vs| ==> Some(vs[k]) == TokenVertex(Surviving(tokens)[k])
  {
    if tokens == [] then []
    else
      var rest := TokenVertices(tokens[1..]);
      TokenVertexIff(tokens[0]);
      match TokenVertex(tokens[0])
      case None =>
        assert Surviving(tokens) == Surviving(tokens[1..]);
        rest
      case Some(v) =>
        assert Surviving(tokens) == [tokens[0]] + Surviving(tokens[1..]);
        [v] + rest
  }

  /** The whole pipeline `text.trim().split(/\s+/).map(...).filter(...)`. */
  function ParseCoordinates(text: string): seq<Vertex> {
    TokenVertices(SplitWhitespace(Trim(text)))
  }

  /** The vertices are the surviving whitespace-separated tokens of the
      trimmed text, one for one and in order. */
  lemma {:induction false} ParseCoordinatesShape(text: string)
    ensures var ts := SplitWhitespace(Trim(text));
            && |ParseCoordinates(text)| == |Surviving(ts)|
            && forall k :: 0 <= k < |Surviving(ts)| ==>
                 TokenVertex(Surviving(ts)[k]) == Some(ParseCoordinates(text)[k])
  {
  }

  /** Text without a comma, which includes all-whitespace text, gives no
      vertex. */
  lemma {:induction false} NoCommaNoVertices(text: string)
    requires ',' !in text
    ensures ParseCoordinates(text) == []
  {
    var a := TrimStart(text);
    SliceNoComma(text, |text| - |a|, |text|);
    assert a == text[|text| - |a|..|text|];
    var t := TrimEnd(a);
    SliceNoComma(a, 0, |t|);
    assert t == a[0..|t|];
    SplitNoComma(t);
    NoCommaNoneSurvive(SplitWhitespace(t));
  }

  lemma {:induction false} SliceNoComma(s: string, i: nat, j: nat)
    requires i <= j <= |s| && ',' !in s
    ensures ',' !in s[i..j]
  {
    forall k | 0 <= k < j - i
      ensures s[i..j][k] != ','
    {
      assert s[i..j][k] == s[i + k];
    }
  }

  /** Splitting a comma-free text gives comma-free tokens. */
  lemma {:induction false} SplitNoComma(s: string)
    requires ',' !in s
    ensures forall k :: 0 <= k < |SplitWhitespace(s)| ==> ',' !in SplitWhitespace(s)[k]
    decreases |s|
  {
    var i := FirstWhitespace(s);
    if i < |s| {
      SliceNoComma(s, 0, i);
      assert s[..i] == s[0..i];
      var rest := TrimStart(s[i..]);
      SliceNoComma(s, |s| - |rest|, |s|);
      assert rest == s[|s| - |rest|..|s|];
      SplitNoComma(rest);
    } else {
      assert SplitWhitespace(s) == [s];
    }
  }

  lemma {:induction false} NoCommaNoneSurvive(ts: seq<string>)
    requires forall k :: 0 <= k < |ts| ==> ',' !in ts[k]
    ensures Surviving(ts) == []
  {
    if ts != [] {
      NoCommaNoneSurvive(ts[1..]);
    }
  }

  /** Field assignment: `lon` is field 0, `lat` is field 1, and `alt` is
      field 2 when present and non-empty, else `0`; later fields are ignored. */
  lemma {:induction false} TokenFields(lon: string, lat: string, more: seq<string>)
    requires ',' !in lon && ',' !in lat
    requires forall k :: 0 <= k < |more| ==> ',' !in more[k]
    ensures TokenVertex(Join([lon, lat] + more, ",")) ==
      Some(Vertex(lat := ParseFloat(lat), lon := ParseFloat(lon),
                  alt := if more != [] && more[0] != "" then ParseFloat(more[0]) else Zero))
  {
    var parts := [lon, lat] + more;
    assert forall k :: 0 <= k < |parts| ==> ',' !in parts[k];
    SplitJoinOn(parts, ',');
  }

  /** A coordinate tuple `lon,lat[,alt]` with comma- and whitespace-free
      fields; an empty `alt` stands for the two-field form. */
  datatype Tuple = Tuple(lon: string, lat: string, alt: string)

  predicate WellFormedField(f: string) {
    ',' !in f && NoWhitespace(f)
  }

  predicate WellFormedTuple(t: Tuple) {
    WellFormedField(t.lon) && WellFormedField(t.lat) && WellFormedField(t.alt)
  }

  /** The text of one tuple. */
  function Format(t: Tuple): (token: string)
    ensures ',' in token
  {
    var token := if t.alt == "" then t.lon + "," + t.lat else t.lon + "," + t.lat + "," + t.alt;
    assert token[|t.lon|] == ',';
    token
  }

  /** The vertex the KML coordinate syntax gives a tuple. */
  function TupleVertex(t: Tuple): Vertex {
    Vertex(lat := ParseFloat(t.lat), lon := ParseFloat(t.lon),
           alt := if t.alt == "" then Zero else ParseFloat(t.alt))
  }

  function FormatAll(ts: seq<Tuple>): (tokens: seq<string>)
    ensures |tokens| == |ts|
    ensures forall k :: 0 <= k < |ts| ==> tokens[k] == Format(ts[k])
  {
    if ts == [] then [] else [Format(ts[0])] + FormatAll(ts[1..])
  }

  lemma {:induction false} FormatWellFormed(t: Tuple)
    requires WellFormedTuple(t)
    ensures Format(t) != "" && NoWhitespace(Format(t))
    ensures TokenVertex(Format(t)) == Some(TupleVertex(t))
  {
    if t.alt == "" {
      assert Format(t) == Join([t.lon, t.lat], ",");
      TokenFields(t.lon, t.lat, []);
    } else {
      assert Join([t.lat, t.alt], ",") == t.lat + "," + t.alt;
      assert ([t.lon, t.lat] + [t.alt])[1..] == [t.lat, t.alt];
      assert Format(t) == Join([t.lon, t.lat] + [t.alt], ",");
      TokenFields(t.lon, t.lat, [t.alt]);
    }
  }

  lemma {:induction false} AllSurvive(ts: seq<string>)
    requires forall k :: 0 <= k < |ts| ==> ',' in ts[k]
    ensures Surviving(ts) == ts
  {
    if ts != [] {
      AllSurvive(ts[1..]);
    }
  }

  /** N well-formed tuples written one after another, with a run of
      whitespace of its own in every gap and whitespace padding at both
      ends, parse back into N
      vertices in the same order, each with its own longitude, latitude and
      altitude. */
  lemma {:induction false} ParseFormatted(ts: seq<Tuple>, seps: seq<string>, lead: string, trail: string)
    requires |ts| > 0 && forall k :: 0 <= k < |ts| ==> WellFormedTuple(ts[k])
    requires |seps| + 1 == |ts| && Separators(seps) && AllWhitespace(lead) && AllWhitespace(trail)
    ensures var vs := ParseCoordinates(lead + JoinWith(FormatAll(ts), seps) + trail);
            |vs| == |ts| && forall k :: 0 <= k < |ts| ==> vs[k] == TupleVertex(ts[k])
  {
    var tokens := FormatAll(ts);
    FormattedTokens(ts);
    var body := JoinWith(tokens, seps);
    assert Trim(lead + body + trail) == body by {
      JoinStartsNonWhitespace(tokens, seps);
      JoinEndsNonWhitespace(tokens, seps);
      TrimPadded(lead, body, trail);
    }
    SplitJoinWhitespace(tokens, seps);
    AllSurvive(tokens);
    var vs := TokenVertices(tokens);
    forall k | 0 <= k < |ts|
      ensures vs[k] == TupleVertex(ts[k])
    {
      assert Some(vs[k]) == TokenVertex(tokens[k]);
    }
  }

  lemma {:induction false} FormattedTokens(ts: seq<Tuple>)
    requires forall k :: 0 <= k < |ts| ==> WellFormedTuple(ts[k])
    ensures forall k :: 0 <= k < |ts| ==>
              && FormatAll(ts)[k] != "" && NoWhitespace(FormatAll(ts)[k])
              && ',' in FormatAll(ts)[k]
              && TokenVertex(FormatAll(ts)[k]) == Some(TupleVertex(ts[k]))
  {
    forall k | 0 <= k < |ts|
      ensures && FormatAll(ts)[k] != "" && NoWhitespace(FormatAll(ts)[k])
              && ',' in FormatAll(ts)[k]
              && TokenVertex(FormatAll(ts)[k]) == Some(TupleVertex(ts[k]))
    {
      FormatWellFormed(ts[k]);
    }
  }

  /** The example of a full tuple: longitude first, then latitude, then
      altitude. */
  lemma ExampleFullTuple()
    ensures ParseCoordinates("77.09027,28.98544,150.5") ==
      [Vertex(lat := ParseFloat("28.98544"), lon := ParseFloat("77.09027"), alt := ParseFloat("150.5"))]
  {
    var t := Tuple("77.09027", "28.98544", "150.5");
    assert WellFormedTuple(t) by {
      assert WellFormedField(t.lon);
      assert WellFormedField(t.lat);
      assert WellFormedField(t.alt);
    }
    assert Format(t) == "77.09027,28.98544,150.5";
    ExampleTuple(t, "77.09027,28.98544,150.5");
  }

  /** Without an altitude field the altitude is `0`. */
  lemma ExampleNoAltitude()
    ensures ParseCoordinates("77.09027,28.98544") ==
      [Vertex(lat := ParseFloat("28.98544"), lon := ParseFloat("77.09027"), alt := Zero)]
  {
    var t := Tuple("77.09027", "28.98544", "");
    assert WellFormedTuple(t) by {
      assert WellFormedField(t.lon);
      assert WellFormedField(t.lat);
      assert WellFormedField(t.alt);
    }
    assert Format(t) == "77.09027,28.98544";
    ExampleTuple(t, "77.09027,28.98544");
  }

  /** Tuples separated by a space in one gap and by a line break and a tab
      in the next, as KML coordinate text is commonly laid out. */
  lemma ExampleMixedSeparators()
    ensures ParseCoordinates("1,2 3,4\n\t5,6") ==
      [ Vertex(lat := ParseFloat("2"), lon := ParseFloat("1"), alt := Zero),
        Vertex(lat := ParseFloat("4"), lon := ParseFloat("3"), alt := Zero),
        Vertex(lat := ParseFloat("6"), lon := ParseFloat("5"), alt := Zero) ]
  {
    var ts := [Tuple("1", "2", ""), Tuple("3", "4", ""), Tuple("5", "6", "")];
    var seps := [" ", "\n\t"];
    MixedText(ts, seps);
    ThreeTuples(ts, seps, "1,2 3,4\n\t5,6");
  }

  lemma MixedText(ts: seq<Tuple>, seps: seq<string>)
    requires ts == [Tuple("1", "2", ""), Tuple("3", "4", ""), Tuple("5", "6", "")]
    requires seps == [" ", "\n\t"]
    ensures forall k :: 0 <= k < |ts| ==> WellFormedTuple(ts[k])
    ensures Separators(seps)
    ensures "" + JoinWith(FormatAll(ts), seps) + "" == "1,2 3,4\n\t5,6"
  {
    assert WellFormedTuple(ts[0]) && WellFormedTuple(ts[1]) && WellFormedTuple(ts[2]);
    assert AllWhitespace(seps[0]) && AllWhitespace(seps[1]);
    assert FormatAll(ts) == ["1,2", "3,4", "5,6"] by {
      assert Format(ts[0]) == "1,2" && Format(ts[1]) == "3,4" && Format(ts[2]) == "5,6";
      assert ts[1..][1..] == [ts[2]];
    }
    var tokens := ["1,2", "3,4", "5,6"];
    assert tokens[1..] == ["3,4", "5,6"] && tokens[1..][1..] == ["5,6"];
    assert seps[1..] == ["\n\t"] && seps[1..][1..] == [];
    assert JoinWith(tokens[1..], seps[1..]) == "3,4" + "\n\t" + "5,6";
  }

  lemma {:induction false} ThreeTuples(ts: seq<Tuple>, seps: seq<string>, text: string)
    requires |ts| == 3 && forall k :: 0 <= k < |ts| ==> WellFormedTuple(ts[k])
    requires |seps| == 2 && Separators(seps)
    requires text == "" + JoinWith(FormatAll(ts), seps) + ""
    ensures ParseCoordinates(text) == [TupleVertex(ts[0]), TupleVertex(ts[1]), TupleVertex(ts[2])]
  {
    ParseFormatted(ts, seps, "", "");
  }

  /** A single well-formed tuple standing alone parses into its vertex. */
  lemma {:induction false} ExampleTuple(t: Tuple, text: string)
    requires WellFormedTuple(t) && text == Format(t)
    ensures ParseCoordinates(text) == [TupleVertex(t)]
  {
    FormatWellFormed(t);
    TokenVertexIff(text);
    SingleToken(text);
  }

  /** A lone token with no whitespace around it parses like the token. */
  lemma {:induction false} SingleToken(text: string)
    requires text != "" && NoWhitespace(text) && ',' in text
    ensures ParseCoordinates(text) == [TokenVertex(text).value]
  {
    TrimSingle(text);
    SplitSingle(text);
    VerticesSingle(text);
  }

  lemma {:induction false} TrimSingle(text: string)
    requires text != "" && NoWhitespace(text)
    ensures Trim(text) == text
  {
    assert "" + text + "" == text;
    TrimPadded("", text, "");
  }

  lemma {:induction false} VerticesSingle(text: string)
    requires ',' in text
    ensures TokenVertex(text).Some? && TokenVertices([text]) == [TokenVertex(text).value]
  {
    TokenVertexIff(text);
    assert Surviving([text]) == [text] by {
      assert [text][1..] == [];
    }
    var vs := TokenVertices([text]);
    assert Some(vs[0]) == TokenVertex(text);
  }

  /** A non-empty token without whitespace splits into itself. */
  lemma {:induction false} SplitSingle(s: string)
    requires s != "" && NoWhitespace(s)
    ensures SplitWhitespace(s) == [s]
  {
    var i := FirstWhitespace(s);
    assert i == |s|;
  }
}
