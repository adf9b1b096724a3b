/** The second implementation of the export fold: stricter about missing hashes, and keeping null
    forward-only keys in the hashed text. */
module InlineVerifier {
  import opened Wrappers
  import opened Anchor

  /** Malformed JSON, and values that are not objects, raise out of the inline verifier. */
  datatype Report = Raised | Report(valid: bool, checked: nat, brokenAt: Json)

  function InlineClean(record: Record): Record {
    map k | k in record && !IsChainMetadata(k) :: record[k]
  }

  function InlineHead(h: Hasher, data: seq<Record>, i: nat): Hex64
    requires i <= |data|
  {
    if i == 0 then GENESIS else ChainHash(h, InlineHead(h, data, i - 1), h.render(InlineClean(data[i - 1])))
  }

  /** Python truthiness of a stored hash. */
  predicate Truthy(v: Json) {
    v != JNull && v != JString("") && v != JNumber(0)
  }

  predicate InlineLineOk(h: Hasher, data: seq<Record>, i: nat)
    requires i < |data|
  {
    && Get(data[i], "_prev_hash") == JString(InlineHead(h, data, i))
    && (Truthy(Get(data[i], "_chain_hash")) ==> Get(data[i], "_chain_hash") == JString(InlineHead(h, data, i + 1)))
  }

  /** record.get("id", "unknown") */
  function IdOf(record: Record): Json {
    if "id" in record then record["id"] else JString("unknown")
  }

  /** The identifier of the first broken record from record i on, or null. */
  function BrokenAt(h: Hasher, data: seq<Record>, i: nat): Json
    requires i <= |data|
    decreases |data| - i
  {
    if i == |data| then JNull
    else if !InlineLineOk(h, data, i) then IdOf(data[i])
    else BrokenAt(h, data, i + 1)
  }

  /** Record k is the first that breaks. */
  ghost predicate FirstBroken(h: Hasher, data: seq<Record>, k: nat) {
    k < |data| && !InlineLineOk(h, data, k) && forall i :: 0 <= i < k ==> InlineLineOk(h, data, i)
  }

  /** What is reported: the identifier of the first broken record, "unknown" where it has none, or null. */
  ghost predicate Names(h: Hasher, data: seq<Record>, at: Json) {
    if exists k: nat :: FirstBroken(h, data, k)
    then exists k: nat :: FirstBroken(h, data, k) && at == if "id" in data[k] then data[k]["id"] else JString("unknown")
    else at == JNull
  }

  lemma {:induction false} BrokenAtNames(h: Hasher, data: seq<Record>, i: nat)
    requires i <= |data| && forall j :: 0 <= j < i ==> InlineLineOk(h, data, j)
    ensures Names(h, data, BrokenAt(h, data, i))
    decreases |data| - i
  {
    hide InlineLineOk;
    if i < |data| {
      if InlineLineOk(h, data, i) {
        BrokenAtNames(h, data, i + 1);
      } else {
        assert FirstBroken(h, data, i);
      }
    }
  }

  /** The parsed lines, in order. */
  function Parsed(lines: seq<Line>): seq<Item> {
    if lines == [] then []
    else
      (match lines[0] case Object(r) => [Entry(r)] case NonObject => [NoObject] case _ => []) + Parsed(lines[1..])
  }

  /** Only a manifest in the last place is dropped. */
  function Body(items: seq<Item>): seq<Item> {
    if items != [] && items[|items| - 1].Entry? && IsManifest(items[|items| - 1].record) then items[..|items| - 1] else items
  }

  /** No record breaks before an item that is not an object is reached. */
  ghost predicate RunsInto(h: Hasher, body: seq<Item>) {
    var data := RecordsOf(body);
    |data| < |body| && forall i :: 0 <= i < |data| ==> InlineLineOk(h, data, i)
  }

  ghost function InlineReport(h: Hasher, items: seq<Item>): Report {
    if items == [] then Report(false, 0, JNull)
    else if items[|items| - 1].NoObject? || RunsInto(h, Body(items)) then Raised
    else
      var at := BrokenAt(h, RecordsOf(Body(items)), 0);
      Report(at == JNull, |Body(items)|, at)
  }

  lemma ParsedStep(lines: seq<Line>, i: nat)
    requires i < |lines|
    ensures Parsed(lines[i..]) ==
      (match lines[i] case Object(r) => [Entry(r)] case NonObject => [NoObject] case _ => []) + Parsed(lines[i + 1..])
  {
    assert lines[i..][1..] == lines[i + 1..];
  }

  lemma ParsedEnd(lines: seq<Line>)
    ensures Parsed(lines[|lines|..]) == [] && lines[0..] == lines
  {
  }

  method ParseLines(lines: seq<Line>) returns (ok: bool, items: seq<Item>)
    ensures ok <==> forall i :: 0 <= i < |lines| ==> !lines[i].Malformed?
    ensures ok ==> items == Parsed(lines)
  {
    ok, items := true, [];
    ParsedEnd(lines);
    hide Parsed;
    for i := 0 to |lines|
      invariant ok <==> forall j :: 0 <= j < i ==> !lines[j].Malformed?
      invariant items + Parsed(lines[i..]) == Parsed(lines)
    {
      if lines[i].Malformed? {
        return false, [];
      }
      ParsedStep(lines, i);
      if !lines[i].Blank? {
        items := items + [if lines[i].Object? then Entry(lines[i].record) else NoObject];
      }
    }
  }

  method WalkRecords(h: Hasher, body: seq<Item>) returns (raised: bool, brokenAt: Json)
    ensures raised <==> RunsInto(h, body)
    ensures !raised ==> brokenAt == BrokenAt(h, RecordsOf(body), 0)
  {
    ghost var data := RecordsOf(body);
    hide InlineClean, IdOf, RecordsOf;
    var prevHash := GENESIS;
    raised, brokenAt := false, JNull;
    var i := 0;
    while i < |body|
      invariant 0 <= i <= |data|
      invariant prevHash == InlineHead(h, data, i)
      invariant forall j :: 0 <= j < i ==> InlineLineOk(h, data, j)
      invariant !raised && brokenAt == JNull && BrokenAt(h, data, 0) == BrokenAt(h, data, i)
    {
      if body[i].NoObject? {
        return true, JNull;
      }
      var record := body[i].record;
      var storedPrev, storedChain := Get(record, "_prev_hash"), Get(record, "_chain_hash");
      var expected := ChainHash(h, prevHash, h.render(InlineClean(record)));
      if storedPrev != JString(prevHash) || (Truthy(storedChain) && storedChain != JString(expected)) {
        assert !InlineLineOk(h, data, i);
        return false, IdOf(record);
      }
      prevHash := if Truthy(storedChain) then storedChain.text else expected;
      i := i + 1;
    }
  }

  lemma ReportNames(h: Hasher, items: seq<Item>)
    ensures var r := InlineReport(h, items);
      r.Report? && items != [] ==> Names(h, RecordsOf(Body(items)), r.brokenAt) && (r.valid <==> r.brokenAt == JNull)
  {
    BrokenAtNames(h, RecordsOf(Body(items)), 0);
    hide RunsInto, RecordsOf, Body, BrokenAt, Names;
  }

  method VerifyInline(h: Hasher, lines: seq<Line>) returns (r: Report)
    ensures (exists i :: 0 <= i < |lines| && lines[i].Malformed?) ==> r == Raised
    ensures (forall i :: 0 <= i < |lines| ==> !lines[i].Malformed?) ==> r == InlineReport(h, Parsed(lines))
    ensures r.Report? && Parsed(lines) != [] ==> Names(h, RecordsOf(Body(Parsed(lines))), r.brokenAt) && (r.valid <==> r.brokenAt == JNull)
    ensures r.Report? && Parsed(lines) == [] ==> r == Report(false, 0, JNull)
  {
    ReportNames(h, Parsed(lines));
    hide RunsInto, Parsed, RecordsOf, BrokenAt, Names;
    var ok, items := ParseLines(lines);
    if !ok {
      return Raised;
    }
    if items == [] {
      return Report(false, 0, JNull);
    }
    if items[|items| - 1].NoObject? {
      return Raised;
    }
    if IsManifest(items[|items| - 1].record) {
      items := items[..|items| - 1];
    }
    var raised, brokenAt := WalkRecords(h, items);
    if raised {
      return Raised;
    }
    r := Report(brokenAt == JNull, |items|, brokenAt);
  }

  // ---- the two verifiers compared ----

  predicate NoNullForwardOnly(record: Record) {
    forall k :: k in FORWARD_ONLY && k in record ==> record[k] != JNull
  }

  /** Both hashes are stored, as non-empty strings. */
  predicate FullyAnnotated(record: Record) {
    && Get(record, "_prev_hash").JString?
    && Get(record, "_chain_hash").JString? && Get(record, "_chain_hash").text != ""
  }

  lemma {:induction false} SameHeads(h: Hasher, data: seq<Record>, n: nat)
    requires n <= |data| && forall i :: 0 <= i < n ==> NoNullForwardOnly(data[i])
    ensures InlineHead(h, data, n) == Head(h, data, n)
  {
    if n > 0 {
      SameHeads(h, data, n - 1);
      assert InlineClean(data[n - 1]) == Clean(data[n - 1]);
    }
  }

  /** Where the running heads have been the same, the two verifiers judge line i differently exactly when
      the fold accepts a line without a stored previous hash; or the inline verifier ignores an empty
      or zero stored hash; or the two texts of the line hash differently and the stored hash is that of
      one of them. */
  lemma LinesAgreeIff(h: Hasher, data: seq<Record>, i: nat)
    requires i < |data| && InlineHead(h, data, i) == Head(h, data, i)
    ensures (LineOk(h, data, i) <==> InlineLineOk(h, data, i)) <==>
      var prev, chain := Get(data[i], "_prev_hash"), Get(data[i], "_chain_hash");
      var ours, theirs := Head(h, data, i + 1), InlineHead(h, data, i + 1);
      && !(prev == JNull && Agrees(chain, ours))
      && !(prev == JString(Head(h, data, i)) &&
           (chain in {JString(""), JNumber(0)} || (ours != theirs && chain in {JString(ours), JString(theirs)})))
  {
    hide Head, InlineHead;
  }

  /** The two texts of a record without null forward-only keys are the same; otherwise their hashes
      differ, or they collide. */
  lemma HeadsPartAtNull(h: Hasher, data: seq<Record>, i: nat) returns (s: string, t: string)
    requires Rendering(h) && i < |data| && InlineHead(h, data, i) == Head(h, data, i)
    ensures NoNullForwardOnly(data[i]) ==> InlineHead(h, data, i + 1) == Head(h, data, i + 1)
    ensures !NoNullForwardOnly(data[i]) ==> InlineHead(h, data, i + 1) != Head(h, data, i + 1) || Collision(h, s, t)
  {
    var prev := Head(h, data, i);
    s, t := prev + EntryCanonical(h, data[i]), prev + h.render(InlineClean(data[i]));
    if NoNullForwardOnly(data[i]) {
      assert InlineClean(data[i]) == Clean(data[i]);
    } else {
      var key :| key in FORWARD_ONLY && key in data[i] && data[i][key] == JNull;
      assert key in InlineClean(data[i]) && key !in Clean(data[i]);
      if s == t {
        ConcatInjective(prev, prev, EntryCanonical(h, data[i]), h.render(InlineClean(data[i])));
        assert false;
      }
    }
  }

  lemma {:induction false} BrokenAtFirst(h: Hasher, data: seq<Record>, i: nat, k: nat)
    requires i <= k <= |data| && forall j :: i <= j < k ==> InlineLineOk(h, data, j)
    ensures BrokenAt(h, data, i) == if k == |data| then JNull else BrokenAt(h, data, k)
    decreases k - i
  {
    hide InlineLineOk;
    if i < k { BrokenAtFirst(h, data, i + 1, k); }
  }

  /** The index of the first record with a null forward-only key, or the number of records. */
  function FirstNull(data: seq<Record>): (k: nat)
    ensures k <= |data| && (forall i :: 0 <= i < k ==> NoNullForwardOnly(data[i]))
    ensures k < |data| ==> !NoNullForwardOnly(data[k])
  {
    if data == [] || !NoNullForwardOnly(data[0]) then 0 else 1 + FirstNull(data[1..])
  }

  /** The index of the line that the fold names, or the number of records. */
  function FoldBreak(h: Hasher, data: seq<Record>): nat {
    var fold := Recompute(h, data, |data|);
    if fold.HeadOk? || fold.line == 0 then |data| else fold.line - 1
  }

  /** Record k carries the fold's previous hash and the inline verifier's own hash of its text. */
  predicate Resealed(h: Hasher, data: seq<Record>, k: nat)
    requires k < |data|
  {
    Get(data[k], "_prev_hash") == JString(Head(h, data, k)) && Get(data[k], "_chain_hash") == JString(InlineHead(h, data, k + 1))
  }

  lemma FoldBreakIsFirst(h: Hasher, data: seq<Record>)
    ensures var f := FoldBreak(h, data);
      && f <= |data| && (forall i :: 0 <= i < f ==> LineOk(h, data, i)) && (f < |data| ==> !LineOk(h, data, f))
      && (Recompute(h, data, |data|).HeadOk? <==> f == |data|)
  {
    RecomputeIff(h, data, |data|);
    hide Recompute, LineOk, LinkOk;
  }

  /** Before the first null forward-only key, the verifiers agree on every fully annotated line. */
  lemma AgreeBefore(h: Hasher, data: seq<Record>, i: nat)
    requires i < |data| && FullyAnnotated(data[i]) && forall j :: 0 <= j <= i ==> NoNullForwardOnly(data[j])
    ensures LineOk(h, data, i) <==> InlineLineOk(h, data, i)
  {
    SameHeads(h, data, i);
    SameHeads(h, data, i + 1);
    LinesAgreeIff(h, data, i);
    hide LineOk, InlineLineOk, Head, InlineHead;
  }

  /** At the first null forward-only key the inline verifier accepts a fully annotated line only if it
      was resealed, or the two texts of the line collide. */
  lemma AtFirstNull(h: Hasher, data: seq<Record>, k: nat) returns (s: string, t: string)
    requires Rendering(h) && k < |data| && FullyAnnotated(data[k]) && !NoNullForwardOnly(data[k])
    requires forall j :: 0 <= j < k ==> NoNullForwardOnly(data[j])
    ensures Collision(h, s, t) ||
      ((InlineLineOk(h, data, k) <==> Resealed(h, data, k)) && (LineOk(h, data, k) ==> !InlineLineOk(h, data, k)))
  {
    SameHeads(h, data, k);
    s, t := HeadsPartAtNull(h, data, k);
    hide Head, InlineHead, NoNullForwardOnly;
  }

  /** The verdicts on every fully annotated file.  The inline verifier breaks at the line that the fold
      names or at the first record with a null forward-only key, whichever comes first; if they are
      the same record, it goes on exactly when that record was resealed.  Or, where such a record
      exists, its two texts collide. */
  lemma SameVerdict(h: Hasher, data: seq<Record>) returns (s: string, t: string)
    requires Rendering(h) && forall i :: 0 <= i < |data| ==> FullyAnnotated(data[i])
    ensures var f, k := FoldBreak(h, data), FirstNull(data);
      var m := if f < k then f else k;
      || (k < |data| && Collision(h, s, t))
      || (m == |data| && BrokenAt(h, data, 0) == JNull)
      || (m < |data| && BrokenAt(h, data, 0) ==
            if f == k && Resealed(h, data, m) then BrokenAt(h, data, m + 1) else IdOf(data[m]))
  {
    hide LineOk, InlineLineOk, FoldBreak, FirstNull, Resealed, NoNullForwardOnly, FullyAnnotated, Recompute, Head, InlineHead;
    s, t := "", "";
    FoldBreakIsFirst(h, data);
    var f, k := FoldBreak(h, data), FirstNull(data);
    var m := if f < k then f else k;
    forall i | 0 <= i < m ensures InlineLineOk(h, data, i) {
      AgreeBefore(h, data, i);
    }
    BrokenAtFirst(h, data, 0, m);
    if m < |data| {
      if f < k {
        AgreeBefore(h, data, m);
      } else {
        s, t := AtFirstNull(h, data, k);
      }
    }
  }

  /** An export annotated by the fold, which the fold always accepts, breaks the inline verifier at its
      first record with a null forward-only key and nowhere else, or that record's two texts collide. */
  lemma ExportBreaksAt(h: Hasher, data: seq<Record>) returns (s: string, t: string)
    requires Rendering(h)
    ensures var exported, k := Annotate(h, data), FirstNull(data);
      || (k < |data| && Collision(h, s, t))
      || BrokenAt(h, exported, 0) == if k == |data| then JNull else IdOf(data[k])
  {
    hide *;
    var r := Annotate(h, data);
    AnnotateKeeps(h, data);
    SameFirstNull(r, data);
    AnnotatedIsAccepted(h, data);
    FoldBreakIsFirst(h, r);
    s, t := SameVerdict(h, r);
  }

  lemma AnnotateKeeps(h: Hasher, data: seq<Record>)
    ensures var r := Annotate(h, data);
      && |r| == |data|
      && (forall i :: 0 <= i < |data| ==> FullyAnnotated(r[i]))
      && (forall i :: 0 <= i < |data| ==> IdOf(r[i]) == IdOf(data[i]))
      && (forall i :: 0 <= i < |data| ==> (NoNullForwardOnly(r[i]) <==> NoNullForwardOnly(data[i])))
  {
    hide FullyAnnotated, IdOf, NoNullForwardOnly, Annotated;
    forall i | 0 <= i < |data|
      ensures var a := Annotated(h, data, i);
        FullyAnnotated(a) && IdOf(a) == IdOf(data[i]) && (NoNullForwardOnly(a) <==> NoNullForwardOnly(data[i]))
    {
      AnnotationKeeps(h, data, i);
    }
  }

  function Entries(data: seq<Record>): (items: seq<Item>)
    ensures |items| == |data| && forall i :: 0 <= i < |data| ==> items[i] == Entry(data[i])
  {
    seq(|data|, i requires 0 <= i < |data| => Entry(data[i]))
  }

  lemma {:induction false} RecordsOfEntries(items: seq<Item>, data: seq<Record>)
    requires |items| == |data| && forall i :: 0 <= i < |data| ==> items[i] == Entry(data[i])
    ensures RecordsOf(items) == data
  {
    if data != [] {
      RecordsOfEntries(items[1..], data[1..]);
      assert data == [data[0]] + data[1..];
    }
  }

  /** The report on an export as it is written, records and manifest: all records are checked, and it is
      reported valid exactly when no record has a null forward-only key, or the first such record has a
      null identifier; or that record's two texts collide.  A file without any line is reported invalid. */
  lemma ExportAcceptedIff(h: Hasher, data: seq<Record>, manifest: Record) returns (s: string, t: string)
    requires Rendering(h) && IsManifest(manifest)
    ensures var r, k := InlineReport(h, Entries(Annotate(h, data)) + [Entry(manifest)]), FirstNull(data);
      && r.Report? && r.checked == |data|
      && ((k < |data| && Collision(h, s, t)) || (r.valid <==> k == |data| || IdOf(data[k]) == JNull))
    ensures FirstNull(data) == |data| <==> forall i :: 0 <= i < |data| ==> NoNullForwardOnly(data[i])
    ensures InlineReport(h, []) == Report(false, 0, JNull)
  {
    hide FullyAnnotated, IdOf, NoNullForwardOnly, Annotated, Annotate, BrokenAt, IsManifest, RecordsOf, InlineLineOk;
    var r := Annotate(h, data);
    assert |r| == |data|;
    var items := Entries(r) + [Entry(manifest)];
    assert items[..|data|] == Entries(r);
    RecordsOfEntries(Entries(r), r);
    s, t := ExportBreaksAt(h, data);
    hide FirstNull, Entries;
  }

  lemma AnnotationKeeps(h: Hasher, data: seq<Record>, i: nat)
    requires i < |data|
    ensures var a := Annotated(h, data, i);
      FullyAnnotated(a) && IdOf(a) == IdOf(data[i]) && (NoNullForwardOnly(a) <==> NoNullForwardOnly(data[i]))
  {
    hide Head;
    AnnotationIsIgnored(h, data, i);
    hide Clean;
    var a, r := Annotated(h, data, i), data[i];
    assert forall k :: k != "_prev_hash" && k != "_chain_hash" ==> (k in a <==> k in r) && (k in a ==> a[k] == r[k]);
    assert "id"[0] != '_' && "constraint_violation"[0] != '_' && "reason_code"[0] != '_';
    assert "_prev_hash"[0] == '_' && "_chain_hash"[0] == '_';
  }

  lemma SameFirstNull(a: seq<Record>, b: seq<Record>)
    requires |a| == |b| && forall i :: 0 <= i < |a| ==> (NoNullForwardOnly(a[i]) <==> NoNullForwardOnly(b[i]))
    ensures FirstNull(a) == FirstNull(b)
  {
    hide NoNullForwardOnly;
    if FirstNull(a) != FirstNull(b) { assert false; }
  }
}
