/** The signed canonical form of a grant: the backend printer, the standalone printer, and a parser that
    inverts both exactly on steady grants. */
module GrantPayload {
  import opened Wrappers

  /** The ten fields that are signed. */
  datatype GrantFields = GrantFields(action: string, createdBy: string, id: string, reason: string,
                                     resource: string, role: string, subjectId: string,
                                     validFrom: string, validUntil: string, constraints: Option<string>)

  /** A value of the JSON record that the standalone verifier reads. */
  datatype JsonValue = JsonNull | JsonString(text: string)

  const KEYS: seq<string> :=
    ["action", "createdBy", "id", "reason", "resource", "role", "subjectId", "validFrom", "validUntil"]

  const CONSTRAINTS: string := "constraints="

  /** "\n".join(lines) */
  function Join(lines: seq<string>): string {
    if |lines| == 0 then ""
    else if |lines| == 1 then lines[0]
    else lines[0] + "\n" + Join(lines[1..])
  }

  function Line(key: string, value: string): string {
    key + "=" + value
  }

  /** The backend printer. */
  function CanonicalPayload(g: GrantFields): string {
    var lines := [Line("action", g.action), Line("createdBy", g.createdBy), Line("id", g.id),
                  Line("reason", g.reason), Line("resource", g.resource), Line("role", g.role),
                  Line("subjectId", g.subjectId), Line("validFrom", g.validFrom),
                  Line("validUntil", g.validUntil)];
    Join(if g.constraints.Some? then lines + [CONSTRAINTS + g.constraints.value] else lines)
  }

  function Text(v: JsonValue): string {
    match v
    case JsonNull => "None"
    case JsonString(t) => t
  }

  /** The standalone printer, over a JSON record; None where a missing key raises KeyError. */
  function RecordPayload(record: map<string, JsonValue>): Option<string> {
    if exists k :: k in KEYS && k !in record then None
    else
      var lines := seq(|KEYS|, i requires 0 <= i < |KEYS| && KEYS[i] in record => Line(KEYS[i], Text(record[KEYS[i]])));
      var extra := if "constraints" in record && record["constraints"] != JsonNull
                   then [CONSTRAINTS + Text(record["constraints"])] else [];
      Some(Join(lines + extra))
  }

  /** The nine fixed values in the order of KEYS. */
  function Values(g: GrantFields): seq<string> {
    [g.action, g.createdBy, g.id, g.reason, g.resource, g.role, g.subjectId, g.validFrom, g.validUntil]
  }

  /** The record holds the fields of g (and possibly more). */
  predicate Holds(record: map<string, JsonValue>, g: GrantFields) {
    && (forall i :: 0 <= i < |KEYS| ==> KEYS[i] in record && record[KEYS[i]] == JsonString(Values(g)[i]))
    && (g.constraints.Some? ==> "constraints" in record && record["constraints"] == JsonString(g.constraints.value))
    && (g.constraints.None? ==> "constraints" !in record || record["constraints"] == JsonNull)
  }

  // ---- the two printers agree ----

  function FieldLines(keys: seq<string>, values: seq<string>): (lines: seq<string>)
    requires |keys| == |values|
    ensures |lines| == |keys| && forall i :: 0 <= i < |keys| ==> lines[i] == Line(keys[i], values[i])
  {
    if |keys| == 0 then [] else [Line(keys[0], values[0])] + FieldLines(keys[1..], values[1..])
  }

  function Extra(g: GrantFields): seq<string> {
    if g.constraints.Some? then [CONSTRAINTS + g.constraints.value] else []
  }

  lemma PayloadIsJoin(g: GrantFields)
    ensures CanonicalPayload(g) == Join(FieldLines(KEYS, Values(g)) + Extra(g))
  {
    var lines := FieldLines(KEYS, Values(g));
    assert lines == [Line("action", g.action), Line("createdBy", g.createdBy), Line("id", g.id),
                     Line("reason", g.reason), Line("resource", g.resource), Line("role", g.role),
                     Line("subjectId", g.subjectId), Line("validFrom", g.validFrom),
                     Line("validUntil", g.validUntil)];
    assert lines + [] == lines;
  }

  /** Both printers give the same text for every grant. */
  lemma PrintersAgree(record: map<string, JsonValue>, g: GrantFields)
    requires Holds(record, g)
    ensures RecordPayload(record) == Some(CanonicalPayload(g))
  {
    PayloadIsJoin(g);
    assert forall k :: k in KEYS ==> exists i :: 0 <= i < |KEYS| && KEYS[i] == k;
    var lines := seq(|KEYS|, i requires 0 <= i < |KEYS| && KEYS[i] in record => Line(KEYS[i], Text(record[KEYS[i]])));
    assert lines == FieldLines(KEYS, Values(g));
  }

  /** The standalone printer raises exactly when one of the nine keys is missing, and prints a null as "None";
      a null constraint is left out. */
  lemma MissingAndNull(record: map<string, JsonValue>, key: string)
    ensures RecordPayload(record).None? <==>
      !({"action", "createdBy", "id", "reason", "resource", "role", "subjectId", "validFrom", "validUntil"} <= record.Keys)
    ensures key != "constraints" ==> RecordPayload(record[key := JsonNull]) == RecordPayload(record[key := JsonString("None")])
    ensures RecordPayload(record["constraints" := JsonNull]) == RecordPayload(record - {"constraints"})
  {
    KeysAre(record);
    if key != "constraints" { NullIsNone(record, key); }
    NullConstraint(record);
    hide RecordPayload;
  }

  lemma KeyIs(key: string)
    ensures key in KEYS <==>
      key in {"action", "createdBy", "id", "reason", "resource", "role", "subjectId", "validFrom", "validUntil"}
  {
    if key in KEYS {
      var i :| 0 <= i < |KEYS| && KEYS[i] == key;
    } else {
      assert forall i :: 0 <= i < |KEYS| ==> KEYS[i] != key;
    }
  }

  lemma NoneIsMissing(record: map<string, JsonValue>)
    ensures RecordPayload(record).None? <==> exists k :: k in KEYS && k !in record
  {
    hide Join, Line, KEYS;
  }

  lemma KeysAre(record: map<string, JsonValue>)
    ensures RecordPayload(record).None? <==>
      !({"action", "createdBy", "id", "reason", "resource", "role", "subjectId", "validFrom", "validUntil"} <= record.Keys)
  {
    NoneIsMissing(record);
    forall k: string {
      KeyIs(k);
    }
    hide RecordPayload, KEYS;
  }

  lemma SamePayload(a: map<string, JsonValue>, b: map<string, JsonValue>)
    requires forall k :: k in KEYS ==> (k in a <==> k in b) && (k in a ==> Text(a[k]) == Text(b[k]))
    requires ("constraints" in a && a["constraints"] != JsonNull) <==> ("constraints" in b && b["constraints"] != JsonNull)
    requires "constraints" in a && a["constraints"] != JsonNull ==> Text(a["constraints"]) == Text(b["constraints"])
    ensures RecordPayload(a) == RecordPayload(b)
  {
    if forall k :: k in KEYS ==> k in a {
      assert seq(|KEYS|, i requires 0 <= i < |KEYS| && KEYS[i] in a => Line(KEYS[i], Text(a[KEYS[i]])))
          == seq(|KEYS|, i requires 0 <= i < |KEYS| && KEYS[i] in b => Line(KEYS[i], Text(b[KEYS[i]])));
    }
    hide Join, Line;
  }

  lemma NullIsNone(record: map<string, JsonValue>, key: string)
    requires key != "constraints"
    ensures RecordPayload(record[key := JsonNull]) == RecordPayload(record[key := JsonString("None")])
  {
    hide RecordPayload;
    SamePayload(record[key := JsonNull], record[key := JsonString("None")]);
  }

  lemma NullConstraint(record: map<string, JsonValue>)
    ensures RecordPayload(record["constraints" := JsonNull]) == RecordPayload(record - {"constraints"})
  {
    hide RecordPayload;
    assert "constraints" !in KEYS;
    SamePayload(record["constraints" := JsonNull], record - {"constraints"});
  }

  // ---- the printer, as values between markers ----

  /** What introduces each field after the first: a newline, the next key and an equals sign. */
  const MARKERS: seq<string> :=
    ["\ncreatedBy=", "\nid=", "\nreason=", "\nresource=", "\nrole=", "\nsubjectId=", "\nvalidFrom=", "\nvalidUntil=",
     "\nconstraints="]

  const FIRST: string := "action="

  /** values[0] markers[0] values[1] ... and, after the last marker, `last` if there is one. */
  function Weave(values: seq<string>, markers: seq<string>, last: Option<string>): string
    requires |values| == |markers| > 0
  {
    if |values| > 1 then values[0] + markers[0] + Weave(values[1..], markers[1..], last)
    else match last
         case None => values[0]
         case Some(t) => values[0] + markers[0] + t
  }

  lemma {:induction false} JoinIsWeave(keys: seq<string>, values: seq<string>, markers: seq<string>, last: Option<string>)
    requires |keys| == |values| == |markers| > 0
    requires forall i :: 0 <= i < |keys| - 1 ==> markers[i] == "\n" + keys[i + 1] + "="
    requires markers[|keys| - 1] == "\n" + CONSTRAINTS
    ensures Join(FieldLines(keys, values) + (match last case None => [] case Some(t) => [CONSTRAINTS + t]))
         == keys[0] + "=" + Weave(values, markers, last)
  {
    var extra := match last case None => [] case Some(t) => [CONSTRAINTS + t];
    var lines := FieldLines(keys, values) + extra;
    assert lines[0] == keys[0] + "=" + values[0];
    if |keys| > 1 {
      JoinIsWeave(keys[1..], values[1..], markers[1..], last);
      assert lines[1..] == FieldLines(keys[1..], values[1..]) + extra;
      Regroup(keys[0] + "=", values[0], keys[1], Weave(values[1..], markers[1..], last));
    } else {
      assert lines[1..] == extra;
      if last.Some? { LastLine(keys[0] + "=" + values[0], last.value); }
    }
  }

  lemma Regroup(head: string, value: string, key: string, rest: string)
    ensures (head + value) + "\n" + (key + "=" + rest) == head + (value + ("\n" + key + "=") + rest)
  {
    assert (head + value) + "\n" + (key + "=" + rest) == head + value + "\n" + key + "=" + rest;
    assert head + (value + ("\n" + key + "=") + rest) == head + value + "\n" + key + "=" + rest;
  }

  lemma LastLine(line: string, t: string)
    ensures Join([line, CONSTRAINTS + t]) == line + ("\n" + CONSTRAINTS + t)
    ensures line + ("\n" + CONSTRAINTS) + t == line + ("\n" + CONSTRAINTS + t)
  {
    assert [line, CONSTRAINTS + t][1..] == [CONSTRAINTS + t];
    assert line + "\n" + (CONSTRAINTS + t) == line + ("\n" + CONSTRAINTS + t);
  }

  lemma PayloadIsWeave(g: GrantFields)
    ensures CanonicalPayload(g) == FIRST + Weave(Values(g), MARKERS, g.constraints)
  {
    hide CanonicalPayload, Join, Weave, FieldLines;
    PayloadIsJoin(g);
    MarkersFit();
    JoinIsWeave(KEYS, Values(g), MARKERS, g.constraints);
    assert KEYS[0] + "=" == FIRST;
  }

  lemma MarkersFit()
    ensures |KEYS| == |MARKERS| == 9
    ensures forall i :: 0 <= i < 8 ==> MARKERS[i] == "\n" + KEYS[i + 1] + "="
    ensures MARKERS[8] == "\n" + CONSTRAINTS
    ensures forall i :: 0 <= i < 9 ==> IsMarker(MARKERS[i])
  {
    hide IsMarker;
    forall i | 0 <= i < 8 ensures MARKERS[i] == "\n" + KEYS[i + 1] + "=" {
    }
    forall i | 0 <= i < 9 ensures IsMarker(MARKERS[i]) {
      var rest := if i < 8 then KEYS[i + 1] + "=" else CONSTRAINTS;
      assert MARKERS[i] == "\n" + rest;
      KeysHaveNoNewlines(i);
      NewlineFirst(rest);
    }
  }

  lemma NewlineFirst(rest: string)
    requires '\n' !in rest
    ensures IsMarker("\n" + rest)
  {
    assert ("\n" + rest)[1..] == rest;
  }

  lemma KeysHaveNoNewlines(i: nat)
    requires i < 9
    ensures '\n' !in if i < 8 then KEYS[i + 1] + "=" else CONSTRAINTS
  {
  }

  // ---- cutting at a marker ----

  predicate IsMarker(m: string) {
    m != "" && m[0] == '\n' && '\n' !in m[1..]
  }

  predicate Contains(s: string, m: string) {
    exists i :: 0 <= i <= |s| && m <= s[i..]
  }

  /** The text before and after the first occurrence of m. */
  function Cut(s: string, m: string): (r: Option<(string, string)>)
    ensures r.Some? ==> s == r.value.0 + m + r.value.1
  {
    if m <= s then Some(("", s[|m|..]))
    else if s == "" then None
    else
      match Cut(s[1..], m)
      case None => None
      case Some((a, b)) =>
        assert s == [s[0]] + s[1..];
        Some(([s[0]] + a, b))
  }

  lemma ContainsStep(s: string, m: string)
    requires s != ""
    ensures Contains(s, m) <==> m <= s || Contains(s[1..], m)
  {
    assert s[0..] == s;
    if Contains(s, m) && !(m <= s) {
      var i :| 0 <= i <= |s| && m <= s[i..];
      assert s[1..][i - 1..] == s[i..];
    }
    if Contains(s[1..], m) {
      var i :| 0 <= i <= |s[1..]| && m <= s[1..][i..];
      assert s[1..][i..] == s[i + 1..];
    }
  }

  lemma {:induction false} CutIff(s: string, m: string)
    ensures Cut(s, m).Some? <==> Contains(s, m)
  {
    if s == "" {
      assert s[0..] == s;
    } else {
      ContainsStep(s, m);
      if !(m <= s) { CutIff(s[1..], m); }
    }
  }

  /** A marker cannot start in a text and end beyond it, in the marker that follows. */
  lemma NoStraddle(a: string, m: string, b: string)
    requires IsMarker(m) && a != ""
    ensures m <= a + m + b ==> m <= a
  {
    var s := a + m + b;
    if |a| < |m| {
      assert s[|a|] == '\n';
      assert m[|a|] == m[1..][|a| - 1];
    } else {
      assert s[..|m|] == a[..|m|];
    }
  }

  lemma CutStep(c: char, s: string, m: string)
    requires !(m <= [c] + s)
    ensures Cut([c] + s, m) ==
      match Cut(s, m) case None => None case Some(p) => Some(([c] + p.0, p.1))
  {
    assert ([c] + s)[1..] == s;
  }

  lemma CutHere(m: string, b: string)
    requires m != ""
    ensures Cut(m + b, m) == Some(("", b))
  {
    assert (m + b)[|m|..] == b;
  }

  /** In a text without m followed by m, the first occurrence is the one that follows. */
  lemma {:induction false} CutAt(a: string, m: string, b: string)
    requires IsMarker(m) && !Contains(a, m)
    ensures Cut(a + m + b, m) == Some((a, b))
  {
    hide Cut, Contains;
    if a == "" {
      assert a + m + b == m + b;
      CutHere(m, b);
    } else {
      ContainsStep(a, m);
      NoStraddle(a, m, b);
      CutAt(a[1..], m, b);
      hide IsMarker;
      assert a + m + b == [a[0]] + (a[1..] + m + b);
      CutStep(a[0], a[1..] + m + b, m);
      assert a == [a[0]] + a[1..];
    }
  }

  /** The text before the cut does not contain the marker. */
  lemma {:induction false} CutIsFirst(s: string, m: string)
    requires IsMarker(m) && Cut(s, m).Some?
    ensures !Contains(Cut(s, m).value.0, m)
  {
    if m <= s {
      assert Cut(s, m).value.0 == "";
    } else {
      CutIsFirst(s[1..], m);
      var (a, b) := Cut(s, m).value;
      var a' := Cut(s[1..], m).value.0;
      assert a == [s[0]] + a' && a[1..] == a';
      ContainsStep(a, m);
      if m <= a {
        assert false;
      }
    }
  }

  // ---- the parser ----

  /** Cut at each marker in turn; only the last one may be missing. */
  function ParseWeave(s: string, markers: seq<string>): Option<(seq<string>, Option<string>)>
    requires |markers| > 0
    decreases |markers|
  {
    match Cut(s, markers[0])
    case None => if |markers| == 1 then Some(([s], None)) else None
    case Some((a, b)) =>
      if |markers| == 1 then Some(([a], Some(b)))
      else
        match ParseWeave(b, markers[1..])
        case None => None
        case Some((vs, last)) => Some(([a] + vs, last))
  }

  function Parse(s: string): Option<GrantFields> {
    if !(FIRST <= s) then None
    else
      match ParseWeave(s[|FIRST|..], MARKERS)
      case None => None
      case Some((v, last)) => if |v| == 9 then Some(FromValues(v, last)) else None
  }

  function FromValues(v: seq<string>, constraints: Option<string>): GrantFields
    requires |v| == 9
  {
    GrantFields(v[0], v[1], v[2], v[3], v[4], v[5], v[6], v[7], v[8], constraints)
  }

  /** No value contains the marker that comes next. */
  predicate SteadyValues(values: seq<string>, markers: seq<string>)
    requires |values| == |markers|
  {
    forall i :: 0 <= i < |values| ==> !Contains(values[i], markers[i])
  }

  /** No fixed field contains a newline followed by the next key and an equals sign; `constraints` is
      next after validUntil. */
  predicate Steady(g: GrantFields) {
    SteadyValues(Values(g), MARKERS)
  }

  predicate AreMarkers(markers: seq<string>) {
    forall i :: 0 <= i < |markers| ==> IsMarker(markers[i])
  }

  lemma {:induction false} ParseOfWeave(values: seq<string>, markers: seq<string>, last: Option<string>)
    requires |values| == |markers| > 0 && AreMarkers(markers) && SteadyValues(values, markers)
    ensures ParseWeave(Weave(values, markers, last), markers) == Some((values, last))
  {
    hide Cut, Contains, IsMarker;
    if |values| > 1 {
      CutAt(values[0], markers[0], Weave(values[1..], markers[1..], last));
      ParseOfWeave(values[1..], markers[1..], last);
      assert values == [values[0]] + values[1..];
    } else {
      assert values == [values[0]];
      match last {
        case None => CutIff(values[0], markers[0]);
        case Some(t) => CutAt(values[0], markers[0], t);
      }
    }
  }

  lemma {:induction false} WeaveOfParse(s: string, markers: seq<string>)
    requires |markers| > 0 && AreMarkers(markers) && ParseWeave(s, markers).Some?
    ensures var (v, last) := ParseWeave(s, markers).value;
      |v| == |markers| && SteadyValues(v, markers) && Weave(v, markers, last) == s
    decreases |markers|
  {
    hide Contains, IsMarker;
    CutIff(s, markers[0]);
    if Cut(s, markers[0]).Some? {
      CutIsFirst(s, markers[0]);
      hide Cut;
      if |markers| > 1 {
        var (a, b) := Cut(s, markers[0]).value;
        WeaveOfParse(b, markers[1..]);
        var (v, last) := ParseWeave(s, markers).value;
        assert v[1..] == ParseWeave(b, markers[1..]).value.0;
      }
    }
  }

  lemma MarkersAreMarkers()
    ensures |MARKERS| == 9 && AreMarkers(MARKERS)
  {
    MarkersFit();
  }

  /** The parser inverts the printer exactly on the steady grants: every field, and whether constraints
      was None. */
  lemma ParsePayload(g: GrantFields)
    ensures Parse(CanonicalPayload(g)) == Some(g) <==> Steady(g)
  {
    hide CanonicalPayload, Weave, SteadyValues, ParseWeave, AreMarkers;
    MarkersAreMarkers();
    PayloadIsWeave(g);
    var text := Weave(Values(g), MARKERS, g.constraints);
    assert (FIRST + text)[|FIRST|..] == text;
    if Steady(g) {
      ParseOfWeave(Values(g), MARKERS, g.constraints);
    }
    if Parse(FIRST + text) == Some(g) {
      WeaveOfParse(text, MARKERS);
      assert ParseWeave(text, MARKERS).value.0 == Values(g);
    }
  }

  /** Whatever parses is the payload of the parsed grant, which is steady. */
  lemma PayloadOfParse(s: string)
    ensures Parse(s).Some? ==> CanonicalPayload(Parse(s).value) == s && Steady(Parse(s).value)
  {
    hide CanonicalPayload, Weave, SteadyValues, ParseWeave, AreMarkers;
    if Parse(s).Some? {
      var g := Parse(s).value;
      MarkersAreMarkers();
      WeaveOfParse(s[|FIRST|..], MARKERS);
      assert ParseWeave(s[|FIRST|..], MARKERS).value.0 == Values(g);
      PayloadIsWeave(g);
      assert s == FIRST + s[|FIRST|..];
    }
  }

  /** Two steady grants with the same payload are the same grant. */
  lemma PayloadInjective(g: GrantFields, g': GrantFields)
    requires Steady(g) && Steady(g')
    requires CanonicalPayload(g) == CanonicalPayload(g')
    ensures g == g'
  {
    hide CanonicalPayload, Steady;
    ParsePayload(g);
    ParsePayload(g');
  }

  // ---- the grants that are not steady ----

  /** Value k ends where its next marker begins, and the rest goes to the next field. */
  function MoveValues(values: seq<string>, markers: seq<string>, last: Option<string>, k: nat, a: string, b: string): (seq<string>, Option<string>)
    requires k < |values| == |markers|
  {
    if k + 1 < |values| then (values[k := a][k + 1 := b + markers[k] + values[k + 1]], last)
    else (values[k := a], Some(match last case None => b case Some(t) => b + markers[k] + t))
  }

  lemma {:induction false} MoveKeepsWeave(values: seq<string>, markers: seq<string>, last: Option<string>, k: nat, a: string, b: string)
    requires k < |values| == |markers| && values[k] == a + markers[k] + b
    ensures var (v, l) := MoveValues(values, markers, last, k, a, b);
      |v| == |values| && Weave(v, markers, l) == Weave(values, markers, last)
  {
    var (v, l) := MoveValues(values, markers, last, k, a, b);
    if k > 0 {
      MoveKeepsWeave(values[1..], markers[1..], last, k - 1, a, b);
      assert v[1..] == MoveValues(values[1..], markers[1..], last, k - 1, a, b).0;
    } else if |values| > 1 {
      NextMoves(values[1..], markers[1..], last, b + markers[0]);
      assert v[1..] == values[1..][0 := b + markers[0] + values[1]];
      Reassociate(a, markers[0], b, markers[0], Weave(values[1..], markers[1..], last));
    } else if last.Some? {
      Reassociate(a, markers[0], b, markers[0], last.value);
    }
  }

  lemma NextMoves(values: seq<string>, markers: seq<string>, last: Option<string>, p: string)
    requires |values| == |markers| > 0
    ensures Weave(values[0 := p + values[0]], markers, last) == p + Weave(values, markers, last)
  {
    var v := values[0 := p + values[0]];
    if |values| > 1 {
      assert v[1..] == values[1..];
      Reassociate(p, values[0], markers[0], "", Weave(values[1..], markers[1..], last));
    } else if last.Some? {
      Reassociate(p, values[0], markers[0], "", last.value);
    }
  }

  lemma Reassociate(a: string, m: string, b: string, n: string, c: string)
    ensures (a + m + b) + n + c == a + m + (b + n + c)
    ensures (a + m) + b + c == a + (m + b + c)
  {
    assert (a + m + b) + n + c == a + m + (b + n + c);
    assert (a + m) + b + c == a + (m + b + c);
  }

  function Moved(g: GrantFields, k: nat, a: string, b: string): GrantFields
    requires k < 9
  {
    var (v, last) := MoveValues(Values(g), MARKERS, g.constraints, k, a, b);
    FromValues(v, last)
  }

  /** Where a field contains its next marker, the text behind it can move to the next field, or become the
      constraints, without a change of the payload. */
  lemma NewlinesAreAmbiguous(g: GrantFields, k: nat, a: string, b: string)
    requires k < 9 && Values(g)[k] == a + MARKERS[k] + b
    ensures Moved(g, k, a, b) != g && CanonicalPayload(Moved(g, k, a, b)) == CanonicalPayload(g)
  {
    hide CanonicalPayload, Weave;
    MarkersFit();
    MoveKeepsWeave(Values(g), MARKERS, g.constraints, k, a, b);
    var (v, last) := MoveValues(Values(g), MARKERS, g.constraints, k, a, b);
    assert Values(Moved(g, k, a, b)) == v;
    PayloadIsWeave(g);
    PayloadIsWeave(Moved(g, k, a, b));
    assert |v[k]| < |Values(g)[k]|;
  }

  /** The first occurrence is at or before any other. */
  lemma {:induction false} CutNoLater(x: string, m: string, y: string)
    ensures Cut(x + m + y, m).Some? && |Cut(x + m + y, m).value.0| <= |x|
  {
    var s := x + m + y;
    assert x == "" ==> s == m + y;
    if !(m <= s) {
      CutNoLater(x[1..], m, y);
      assert s[1..] == x[1..] + m + y;
    }
  }

  /** Whatever stands before it, a printed text parses. */
  lemma {:induction false} WeaveParses(p: string, values: seq<string>, markers: seq<string>, last: Option<string>)
    requires |values| == |markers| > 0
    ensures ParseWeave(p + Weave(values, markers, last), markers).Some?
    decreases |markers|
  {
    if |values| > 1 {
      var s, m, rest := p + Weave(values, markers, last), markers[0], Weave(values[1..], markers[1..], last);
      Reassociate(p, values[0], m, "", rest);
      assert s == (p + values[0]) + m + rest;
      CutNoLater(p + values[0], m, rest);
      hide Weave, Cut;
      var (a, b) := Cut(s, m).value;
      var q := b[..|b| - |rest|];
      assert b == s[|a| + |m|..] && rest == s[|s| - |rest|..];
      assert b == q + rest;
      WeaveParses(q, values[1..], markers[1..], last);
    }
  }

  /** Every payload has exactly one steady grant, the one that the parser finds; a grant that is not
      steady therefore shares its payload with another one.  The steady grants are the largest class that
      keeps the payload injective. */
  lemma SteadyIff(g: GrantFields)
    ensures Parse(CanonicalPayload(g)).Some?
    ensures var twin := Parse(CanonicalPayload(g)).value;
      && Steady(twin) && CanonicalPayload(twin) == CanonicalPayload(g)
      && (Steady(g) <==> twin == g)
  {
    hide CanonicalPayload, Weave, ParseWeave, Steady;
    MarkersAreMarkers();
    PayloadIsWeave(g);
    var text := Weave(Values(g), MARKERS, g.constraints);
    assert (FIRST + text)[|FIRST|..] == text && "" + text == text;
    WeaveParses("", Values(g), MARKERS, g.constraints);
    ParsedLength(text, MARKERS);
    PayloadOfParse(CanonicalPayload(g));
    ParsePayload(g);
  }

  lemma ParsedLength(s: string, markers: seq<string>)
    requires |markers| > 0 && AreMarkers(markers) && ParseWeave(s, markers).Some?
    ensures |ParseWeave(s, markers).value.0| == |markers|
  {
    WeaveOfParse(s, markers);
    hide ParseWeave, SteadyValues, Weave;
  }

  predicate NoNewlines(values: seq<string>) {
    forall i :: 0 <= i < |values| ==> '\n' !in values[i]
  }

  /** Fields without newlines are steady. */
  lemma NoNewlinesAreSteady(g: GrantFields)
    requires NoNewlines(Values(g))
    ensures Steady(g)
  {
    MarkersAreMarkers();
    forall i | 0 <= i < 9 ensures !Contains(Values(g)[i], MARKERS[i]) {
      var v, m := Values(g)[i], MARKERS[i];
      if Contains(v, m) {
        assert false;
      }
    }
  }
}
