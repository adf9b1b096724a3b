/** The keyless anchor verifier: a left fold of hashes over an export, cross-checked line by line and
    compared with the digest published on chain; and the second, inline verifier of the same export. */
module Anchor {
  import opened Wrappers

  datatype Json = JNull | JString(text: string) | JNumber(n: int)

  type Record = map<string, Json>

  function Zeros(n: nat): (s: string)
    ensures |s| == n && forall i :: 0 <= i < n ==> s[i] == '0'
  {
    if n == 0 then "" else Zeros(n - 1) + "0"
  }

  /** A SHA-256 digest in hexadecimal. */
  type Hex64 = s: string | |s| == 64 witness Zeros(64)

  const GENESIS: Hex64 := Zeros(64)

  /** json.dumps with sorted keys, and SHA-256. */
  datatype Hasher = Hasher(render: Record -> string, sha256: string -> Hex64)

  ghost predicate Rendering(h: Hasher) {
    forall a, b :: h.render(a) == h.render(b) ==> a == b
  }

  predicate Collision(h: Hasher, s: string, t: string) {
    s != t && h.sha256(s) == h.sha256(t)
  }

  const FORWARD_ONLY: set<string> := {"constraint_violation", "reason_code"}

  predicate IsChainMetadata(key: string) {
    key != "" && key[0] == '_'
  }

  /** The part of a record that is hashed: no chain metadata, no forward-only key that is null. */
  function Clean(record: Record): (cleaned: Record)
    ensures forall k :: k in cleaned ==> k in record && cleaned[k] == record[k]
  {
    map k | k in record && !IsChainMetadata(k) && !(k in FORWARD_ONLY && record[k] == JNull) :: record[k]
  }

  /** Missing, or null. */
  predicate Nullish(record: Record, key: string) {
    key !in record || record[key] == JNull
  }

  /** The two records say the same under the key, or the difference does not count: the key begins with an
      underscore, or it is one of two that count as missing when they are null. */
  predicate SameUnder(a: Record, b: Record, key: string) {
    || (key in a && key in b && a[key] == b[key])
    || (key !in a && key !in b)
    || (key != "" && key[0] == '_')
    || ((key == "constraint_violation" || key == "reason_code") && Nullish(a, key) && Nullish(b, key))
  }

  /** The two records say the same. */
  ghost predicate SameContent(a: Record, b: Record) {
    forall key: string :: SameUnder(a, b, key)
  }

  /** What is hashed are exactly the contents. */
  lemma CleanIff(a: Record, b: Record)
    ensures Clean(a) == Clean(b) <==> SameContent(a, b)
  {
    forall key: string ensures SameUnder(a, b, key) <==>
      (key in Clean(a) <==> key in Clean(b)) && (key in Clean(a) ==> Clean(a)[key] == Clean(b)[key])
    {
    }
    if SameContent(a, b) {
      assert forall key :: key in Clean(a) || key in Clean(b) ==> SameUnder(a, b, key);
      assert Clean(a) == Clean(b);
    }
    hide SameUnder;
  }

  function EntryCanonical(h: Hasher, record: Record): string {
    h.render(Clean(record))
  }

  function ChainHash(h: Hasher, prev: string, canonical: string): Hex64 {
    h.sha256(prev + canonical)
  }

  /** record.get(key) */
  function Get(record: Record, key: string): Json {
    if key in record then record[key] else JNull
  }

  /** The head of the chain after the first i records. */
  function Head(h: Hasher, data: seq<Record>, i: nat): Hex64
    requires i <= |data|
  {
    if i == 0 then GENESIS else ChainHash(h, Head(h, data, i - 1), EntryCanonical(h, data[i - 1]))
  }

  // ---- recompute_head ----

  datatype HeadResult =
    | HeadOk(finalHash: Hex64, entryCount: nat)
    | LinkageBroken(line: nat)
    | HashMismatch(line: nat)

  predicate Agrees(stored: Json, value: string) {
    stored == JNull || stored == JString(value)
  }

  /** The checks of the first n lines, in order; lines are numbered from 1. */
  function Recompute(h: Hasher, data: seq<Record>, n: nat): HeadResult
    requires n <= |data|
  {
    if n == 0 then HeadOk(GENESIS, 0)
    else
      match Recompute(h, data, n - 1)
      case HeadOk(prev, _) =>
        var record := data[n - 1];
        if !Agrees(Get(record, "_prev_hash"), prev) then LinkageBroken(n)
        else
          var entryHash := ChainHash(h, prev, EntryCanonical(h, record));
          if !Agrees(Get(record, "_chain_hash"), entryHash) then HashMismatch(n)
          else HeadOk(entryHash, n)
      case err => err
  }

  predicate LinkOk(h: Hasher, data: seq<Record>, i: nat)
    requires i < |data|
  {
    Agrees(Get(data[i], "_prev_hash"), Head(h, data, i))
  }

  predicate LineOk(h: Hasher, data: seq<Record>, i: nat)
    requires i < |data|
  {
    LinkOk(h, data, i) && Agrees(Get(data[i], "_chain_hash"), Head(h, data, i + 1))
  }

  /** A loaded line: an object, or a JSON value that is not one. */
  datatype Item = NoObject | Entry(record: Record)

  /** The records before the first item that is not an object. */
  function RecordsOf(items: seq<Item>): (data: seq<Record>)
    ensures |data| <= |items| && (forall i :: 0 <= i < |data| ==> items[i] == Entry(data[i]))
    ensures |data| < |items| ==> items[|data|].NoObject?
  {
    if items == [] || items[0].NoObject? then [] else [items[0].record] + RecordsOf(items[1..])
  }

  /** Reading a key of anything but an object raises. */
  datatype Outcome = Folded(result: HeadResult) | NotAnObject(line: nat)

  function Fold(h: Hasher, items: seq<Item>): Outcome {
    var data := RecordsOf(items);
    var r := Recompute(h, data, |data|);
    if r.HeadOk? && |data| < |items| then NotAnObject(|data| + 1) else Folded(r)
  }

  /** The fold succeeds exactly when every line is an object that agrees with its stored hashes. */
  lemma FoldIff(h: Hasher, items: seq<Item>)
    ensures var data, r := RecordsOf(items), Fold(h, items);
      && (r.Folded? && r.result.HeadOk? <==> |data| == |items| && forall i :: 0 <= i < |data| ==> LineOk(h, data, i))
      && (r.Folded? && r.result.HeadOk? ==> r.result == HeadOk(Head(h, data, |data|), |data|))
  {
    RecomputeIff(h, RecordsOf(items), |RecordsOf(items)|);
    hide LineOk, LinkOk, Recompute, RecordsOf;
  }

  method RecomputeHead(h: Hasher, items: seq<Item>) returns (r: Outcome)
    ensures r == Fold(h, items)
    ensures var data := RecordsOf(items);
      && (r.Folded? && r.result.HeadOk? <==> |data| == |items| && forall i :: 0 <= i < |data| ==> LineOk(h, data, i))
      && (r.Folded? && r.result.HeadOk? ==> r.result == HeadOk(Head(h, data, |data|), |data|))
  {
    ghost var data := RecordsOf(items);
    FoldIff(h, items);
    hide RecordsOf, LineOk, EntryCanonical, ChainHash, Get, Head;
    var prev: Hex64 := GENESIS;
    for idx := 1 to |items| + 1
      invariant idx - 1 <= |data|
      invariant Recompute(h, data, idx - 1) == HeadOk(prev, idx - 1)
    {
      if items[idx - 1].NoObject? {
        return NotAnObject(idx);
      }
      var record := items[idx - 1].record;
      var storedPrev := Get(record, "_prev_hash");
      if storedPrev != JNull && storedPrev != JString(prev) {
        ErrorPersists(h, data, idx, |data|);
        return Folded(LinkageBroken(idx));
      }
      var entryHash := ChainHash(h, prev, EntryCanonical(h, record));
      var storedChain := Get(record, "_chain_hash");
      if storedChain != JNull && storedChain != JString(entryHash) {
        ErrorPersists(h, data, idx, |data|);
        return Folded(HashMismatch(idx));
      }
      prev := entryHash;
    }
    r := Folded(HeadOk(prev, |items|));
  }

  lemma {:induction false} ErrorPersists(h: Hasher, data: seq<Record>, m: nat, n: nat)
    requires m <= n <= |data| && !Recompute(h, data, m).HeadOk?
    ensures Recompute(h, data, n) == Recompute(h, data, m)
    decreases n
  {
    if m < n { ErrorPersists(h, data, m, n - 1); }
  }

  ghost predicate FirstBad(h: Hasher, data: seq<Record>, k: int, n: nat)
    requires n <= |data|
  {
    0 <= k < n && !LineOk(h, data, k) && forall i :: 0 <= i < k ==> LineOk(h, data, i)
  }

  /** What each verdict about the first n lines says. */
  ghost predicate Describes(h: Hasher, data: seq<Record>, n: nat, r: HeadResult)
    requires n <= |data|
  {
    match r
    case HeadOk(head, count) => head == Head(h, data, n) && count == n && forall i :: 0 <= i < n ==> LineOk(h, data, i)
    case LinkageBroken(k) => FirstBad(h, data, k - 1, n) && !LinkOk(h, data, k - 1)
    case HashMismatch(k) => FirstBad(h, data, k - 1, n) && LinkOk(h, data, k - 1)
  }

  lemma RecomputeStep(h: Hasher, data: seq<Record>, n: nat)
    requires n < |data| && Recompute(h, data, n) == HeadOk(Head(h, data, n), n)
    ensures var r := Recompute(h, data, n + 1);
      && (LineOk(h, data, n) ==> r == HeadOk(Head(h, data, n + 1), n + 1))
      && (!LinkOk(h, data, n) ==> r == LinkageBroken(n + 1))
      && (LinkOk(h, data, n) && !LineOk(h, data, n) ==> r == HashMismatch(n + 1))
  {
    hide EntryCanonical;
    hide Get;
    hide Agrees;
  }

  lemma DescribedHead(h: Hasher, data: seq<Record>, n: nat, r: HeadResult)
    requires n <= |data| && Describes(h, data, n, r) && r.HeadOk?
    ensures r == HeadOk(Head(h, data, n), n)
  {
    hide Head;
  }

  lemma DescribesBase(h: Hasher, data: seq<Record>)
    ensures Describes(h, data, 0, Recompute(h, data, 0))
  {
  }

  lemma DescribesLater(h: Hasher, data: seq<Record>, n: nat, r: HeadResult)
    requires n < |data| && Describes(h, data, n, r) && !r.HeadOk?
    ensures Describes(h, data, n + 1, r)
  {
    hide Head, LineOk, LinkOk;
  }

  lemma DescribesNext(h: Hasher, data: seq<Record>, n: nat, r: HeadResult)
    requires n < |data| && Describes(h, data, n, HeadOk(Head(h, data, n), n))
    requires LineOk(h, data, n) ==> r == HeadOk(Head(h, data, n + 1), n + 1)
    requires !LinkOk(h, data, n) ==> r == LinkageBroken(n + 1)
    requires LinkOk(h, data, n) && !LineOk(h, data, n) ==> r == HashMismatch(n + 1)
    ensures Describes(h, data, n + 1, r)
  {
    assert LineOk(h, data, n) ==> LinkOk(h, data, n);
    hide Head, LineOk, LinkOk;
  }

  lemma RecomputeAfter(h: Hasher, data: seq<Record>, n: nat)
    requires n < |data| && Describes(h, data, n, Recompute(h, data, n))
    ensures Describes(h, data, n + 1, Recompute(h, data, n + 1))
  {
    hide Recompute, Head, LineOk, LinkOk, Describes;
    var r := Recompute(h, data, n);
    if r.HeadOk? {
      DescribedHead(h, data, n, r);
      RecomputeStep(h, data, n);
      DescribesNext(h, data, n, Recompute(h, data, n + 1));
    } else {
      ErrorPersists(h, data, n, n + 1);
      DescribesLater(h, data, n, r);
    }
  }

  /** The fold succeeds exactly when every line agrees with its stored hashes, and otherwise names the
      first line that does not, with the check that failed there. */
  lemma {:induction false} RecomputeIff(h: Hasher, data: seq<Record>, n: nat)
    requires n <= |data|
    ensures Describes(h, data, n, Recompute(h, data, n))
  {
    if n == 0 {
      DescribesBase(h, data);
    } else {
      RecomputeIff(h, data, n - 1);
      RecomputeAfter(h, data, n - 1);
    }
    hide Recompute, Describes;
  }

  // ---- binding ----

  /** What two lists with the same head have in common, or why not. */
  datatype Evidence =
    | SameEntries
    | CollisionFound(s: string, t: string)
    | GenesisPreimage(s: string)

  lemma ConcatInjective(p: string, q: string, a: string, b: string)
    requires |p| == |q| && p + a == q + b
    ensures p == q && a == b
  {
    assert p == (p + a)[..|p|] && q == (q + b)[..|p|];
    assert a == (p + a)[|p|..] && b == (q + b)[|p|..];
  }

  /** Two lists with the same head say the same, record by record, or there is a collision, or a text whose
      digest is the genesis value.  No separator is needed, because every running head is 64
      characters long. */
  lemma {:induction false} HeadBinds(h: Hasher, a: seq<Record>, b: seq<Record>, m: nat, n: nat)
    returns (e: Evidence)
    requires Rendering(h) && m <= |a| && n <= |b| && Head(h, a, m) == Head(h, b, n)
    ensures e.SameEntries? ==> m == n && forall i :: 0 <= i < m ==> SameContent(a[i], b[i])
    ensures e.CollisionFound? ==> Collision(h, e.s, e.t)
    ensures e.GenesisPreimage? ==> m != n && h.sha256(e.s) == GENESIS
    decreases m
  {
    if m == 0 && n == 0 {
      return SameEntries;
    }
    if m == 0 || n == 0 {
      var s := if m == 0 then Head(h, b, n - 1) + EntryCanonical(h, b[n - 1])
               else Head(h, a, m - 1) + EntryCanonical(h, a[m - 1]);
      return GenesisPreimage(s);
    }
    var s := Head(h, a, m - 1) + EntryCanonical(h, a[m - 1]);
    var t := Head(h, b, n - 1) + EntryCanonical(h, b[n - 1]);
    if s != t {
      return CollisionFound(s, t);
    }
    ConcatInjective(Head(h, a, m - 1), Head(h, b, n - 1), EntryCanonical(h, a[m - 1]), EntryCanonical(h, b[n - 1]));
    CleanIff(a[m - 1], b[n - 1]);
    hide SameContent, Clean;
    e := HeadBinds(h, a, b, m - 1, n - 1);
  }

  /** With equal counts there is no third possibility. */
  lemma AnchorBinding(h: Hasher, a: seq<Record>, b: seq<Record>) returns (e: Evidence)
    requires Rendering(h) && |a| == |b| && Head(h, a, |a|) == Head(h, b, |b|)
    ensures e.SameEntries? || e.CollisionFound?
    ensures e.SameEntries? ==> forall i :: 0 <= i < |a| ==> SameContent(a[i], b[i])
    ensures e.CollisionFound? ==> Collision(h, e.s, e.t)
  {
    e := HeadBinds(h, a, b, |a|, |b|);
  }

  // ---- the whole verification of a file ----

  datatype Line = Blank | Malformed | NonObject | Object(record: Record)

  datatype LoadResult =
    | Loaded(data: seq<Item>, manifest: Option<Record>)
    | InvalidJson(line: nat)
    | DataAfterManifest(line: nat)

  predicate IsManifest(record: Record) {
    Get(record, "_type") == JString("manifest")
  }

  /** Number of lines that are not blank among the first n. */
  function LineNumber(lines: seq<Line>, n: nat): nat
    requires n <= |lines|
  {
    if n == 0 then 0 else LineNumber(lines, n - 1) + (if lines[n - 1].Blank? then 0 else 1)
  }

  predicate IsData(line: Line) {
    line.NonObject? || (line.Object? && !IsManifest(line.record))
  }

  /** The data lines and the last manifest among the first n lines. */
  function ItemsOf(lines: seq<Line>, n: nat): seq<Item>
    requires n <= |lines|
  {
    if n == 0 then []
    else if IsData(lines[n - 1]) then
      ItemsOf(lines, n - 1) + [if lines[n - 1].NonObject? then NoObject else Entry(lines[n - 1].record)]
    else ItemsOf(lines, n - 1)
  }

  /** The records of a file, up to the first line that is not an object. */
  function DataOf(lines: seq<Line>): seq<Record> {
    RecordsOf(ItemsOf(lines, |lines|))
  }

  function ManifestOf(lines: seq<Line>, n: nat): Option<Record>
    requires n <= |lines|
  {
    if n == 0 then None
    else if lines[n - 1].Object? && IsManifest(lines[n - 1].record) then Some(lines[n - 1].record)
    else ManifestOf(lines, n - 1)
  }

  /** Line i can be loaded after the lines before it. */
  predicate Loadable(lines: seq<Line>, i: nat)
    requires i < |lines|
  {
    && !lines[i].Malformed?
    && (IsData(lines[i]) ==> ManifestOf(lines, i).None?)
  }

  method LoadNdjson(lines: seq<Line>) returns (r: LoadResult)
    ensures r.Loaded? <==> forall i :: 0 <= i < |lines| ==> Loadable(lines, i)
    ensures r.Loaded? ==> r.data == ItemsOf(lines, |lines|) && r.manifest == ManifestOf(lines, |lines|)
    ensures !r.Loaded? ==> exists k ::
      && 0 <= k < |lines| && !Loadable(lines, k) && (forall i :: 0 <= i < k ==> Loadable(lines, i))
      && r.line == LineNumber(lines, k + 1) && (r.InvalidJson? <==> lines[k].Malformed?)
  {
    var data: seq<Item> := [];
    var manifest: Option<Record> := None;
    var lineno := 0;
    for i := 0 to |lines|
      invariant data == ItemsOf(lines, i) && manifest == ManifestOf(lines, i) && lineno == LineNumber(lines, i)
      invariant forall j :: 0 <= j < i ==> Loadable(lines, j)
    {
      if lines[i].Blank? {
        continue;
      }
      lineno := lineno + 1;
      if lines[i].Malformed? {
        assert !Loadable(lines, i);
        return InvalidJson(lineno);
      }
      if lines[i].Object? && IsManifest(lines[i].record) {
        manifest := Some(lines[i].record);
        continue;
      }
      if manifest.Some? {
        assert !Loadable(lines, i);
        return DataAfterManifest(lineno);
      }
      data := data + [if lines[i].NonObject? then NoObject else Entry(lines[i].record)];
    }
    r := Loaded(data, manifest);
  }

  /** The anchor payload found on chain. */
  datatype OnChain = OnChain(h: Json, s: Json)

  datatype Verdict =
    | Verified(head: Hex64, count: nat)
    | LoadFailed | NoData | BrokenLine(error: HeadResult) | AttributeError(line: nat) | TxNotFound
    | ManifestCountMismatch | ChainCountMismatch | HeadMismatch

  /** The file loads, is not empty, and every line is an object that agrees with its stored hashes. */
  ghost predicate Folds(h: Hasher, lines: seq<Line>) {
    && (forall i :: 0 <= i < |lines| ==> Loadable(lines, i))
    && DataOf(lines) != [] && |DataOf(lines)| == |ItemsOf(lines, |lines|)|
    && forall i :: 0 <= i < |DataOf(lines)| ==> LineOk(h, DataOf(lines), i)
  }

  method Verify(h: Hasher, lines: seq<Line>, payload: Option<OnChain>) returns (v: Verdict)
    ensures v.Verified? <==> Accepts(h, lines, payload)
    ensures v.Verified? <==> exists heads :: Attested(h, lines, payload, heads)
    ensures v.Verified? ==> v.count == |DataOf(lines)| && v.head == Head(h, DataOf(lines), v.count)
    ensures v == LoadFailed <==> exists i :: 0 <= i < |lines| && !Loadable(lines, i)
    ensures v == NoData <==> v != LoadFailed && ItemsOf(lines, |lines|) == []
    ensures v != LoadFailed && v != NoData ==>
      var outcome := Fold(h, ItemsOf(lines, |lines|));
      && (v.AttributeError? <==> outcome.NotAnObject?) && (v.AttributeError? ==> v.line == outcome.line)
      && (v.BrokenLine? <==> outcome.Folded? && !outcome.result.HeadOk?) && (v.BrokenLine? ==> v.error == outcome.result)
    ensures Folds(h, lines) ==>
      var n := |DataOf(lines)|;
      && (v == TxNotFound <==> payload.None?)
      && (v == ManifestCountMismatch <==> payload.Some? && !CountIs(lines, n))
      && (v == ChainCountMismatch <==> payload.Some? && CountIs(lines, n) && payload.value.s != JNumber(n))
      && (v == HeadMismatch <==> payload.Some? && CountIs(lines, n) && payload.value.s == JNumber(n)
                                 && payload.value.h != JString(Head(h, DataOf(lines), n)))
  {
    AcceptsIff(h, lines, payload);
    CountIff(lines, |DataOf(lines)|);
    FoldIff(h, ItemsOf(lines, |lines|));
    hide Attested, Loadable, CountIs, Fold, LineOk;
    var loaded := LoadNdjson(lines);
    if !loaded.Loaded? {
      return LoadFailed;
    }
    if loaded.data == [] {
      return NoData;
    }
    var outcome := RecomputeHead(h, loaded.data);
    if outcome.NotAnObject? {
      return AttributeError(outcome.line);
    }
    var head := outcome.result;
    if !head.HeadOk? {
      return BrokenLine(head);
    }
    if payload.None? {
      return TxNotFound;
    }
    if loaded.manifest.Some? && Get(loaded.manifest.value, "_entry_count") != JNumber(head.entryCount) {
      return ManifestCountMismatch;
    }
    if payload.value.s != JNumber(head.entryCount) {
      return ChainCountMismatch;
    }
    if payload.value.h != JString(head.finalHash) {
      return HeadMismatch;
    }
    v := Verified(head.finalHash, head.entryCount);
  }

  /** What a verified file satisfies. */
  ghost predicate Accepts(h: Hasher, lines: seq<Line>, payload: Option<OnChain>) {
    var data, manifest := DataOf(lines), ManifestOf(lines, |lines|);
    && |data| == |ItemsOf(lines, |lines|)|
    && (forall i :: 0 <= i < |lines| ==> Loadable(lines, i))
    && data != []
    && (forall i :: 0 <= i < |data| ==> LineOk(h, data, i))
    && payload.Some?
    && (manifest.Some? ==> Get(manifest.value, "_entry_count") == JNumber(|data|))
    && payload.value == OnChain(JString(Head(h, data, |data|)), JNumber(|data|))
  }

  // ---- verification in terms of the file alone ----

  /** heads[i] is the running digest before record i: 64 zeros at first, then the SHA-256 of the one before,
      followed by the text of the cleaned record. */
  ghost predicate Running(h: Hasher, data: seq<Record>, heads: seq<string>) {
    && |heads| == |data| + 1
    && |heads[0]| == 64 && (forall i :: 0 <= i < 64 ==> heads[0][i] == '0')
    && forall i :: 0 <= i < |data| ==> heads[i + 1] == h.sha256(heads[i] + h.render(Clean(data[i])))
  }

  /** The stored value is missing, null, or the given text. */
  predicate StoredIs(record: Record, key: string, value: string) {
    key in record && record[key] != JNull ==> record[key] == JString(value)
  }

  predicate Marked(line: Line) {
    line.Object? && "_type" in line.record && line.record["_type"] == JString("manifest")
  }

  /** Every line is blank or an object, and manifests come last. */
  predicate WellShaped(lines: seq<Line>) {
    && (forall i :: 0 <= i < |lines| ==> lines[i].Blank? || lines[i].Object?)
    && (forall i, j :: 0 <= i < j < |lines| && Marked(lines[i]) ==> lines[j].Blank? || Marked(lines[j]))
  }

  /** The manifest at line i is the last. */
  predicate LastMarked(lines: seq<Line>, i: nat)
    requires i < |lines|
  {
    Marked(lines[i]) && forall j :: i < j < |lines| ==> !Marked(lines[j])
  }

  /** The last manifest, if there is one, counts n records. */
  predicate CountIs(lines: seq<Line>, n: nat) {
    forall i :: 0 <= i < |lines| && LastMarked(lines, i) ==>
      "_entry_count" in lines[i].record && lines[i].record["_entry_count"] == JNumber(n)
  }

  predicate Carries(record: Record, before: string, after: string) {
    StoredIs(record, "_prev_hash", before) && StoredIs(record, "_chain_hash", after)
  }

  /** The file has the right shape and count; each record agrees with the running digests; and the final digest and the count were published. */
  ghost predicate Attested(h: Hasher, lines: seq<Line>, payload: Option<OnChain>, heads: seq<string>) {
    var data := DataOf(lines);
    && WellShaped(lines) && CountIs(lines, |data|)
    && data != [] && Running(h, data, heads)
    && (forall i :: 0 <= i < |data| ==> Carries(data[i], heads[i], heads[i + 1]))
    && payload == Some(OnChain(JString(heads[|data|]), JNumber(|data|)))
  }

  lemma {:induction false} RunningIsHead(h: Hasher, data: seq<Record>, heads: seq<string>, n: nat)
    requires Running(h, data, heads) && n <= |data|
    ensures heads[n] == Head(h, data, n)
  {
    hide Clean;
    if n == 0 {
      assert heads[0] == GENESIS;
    } else {
      RunningIsHead(h, data, heads, n - 1);
    }
  }

  lemma HeadsRun(h: Hasher, data: seq<Record>) returns (heads: seq<string>)
    ensures Running(h, data, heads)
  {
    hide Clean;
    heads := seq(|data| + 1, i requires 0 <= i <= |data| => Head(h, data, i));
  }

  lemma LineStores(h: Hasher, data: seq<Record>, heads: seq<string>, i: nat)
    requires Running(h, data, heads) && i < |data|
    ensures LineOk(h, data, i) <==> Carries(data[i], heads[i], heads[i + 1])
  {
    RunningIsHead(h, data, heads, i);
    RunningIsHead(h, data, heads, i + 1);
    hide Head, Running;
  }

  lemma MarkedIsManifest(line: Line)
    ensures Marked(line) <==> line.Object? && IsManifest(line.record)
  {
  }

  lemma {:induction false} NoManifestIff(lines: seq<Line>, n: nat)
    requires n <= |lines|
    ensures ManifestOf(lines, n).None? <==> forall i :: 0 <= i < n ==> !Marked(lines[i])
  {
    hide IsManifest, Marked;
    if n > 0 {
      MarkedIsManifest(lines[n - 1]);
      NoManifestIff(lines, n - 1);
    }
  }

  lemma {:induction false} LastManifest(lines: seq<Line>, n: nat) returns (i: nat)
    requires n <= |lines| && ManifestOf(lines, n).Some?
    ensures i < n && Marked(lines[i]) && (forall j :: i < j < n ==> !Marked(lines[j])) && ManifestOf(lines, n) == Some(lines[i].record)
  {
    hide IsManifest, Marked;
    if n > 0 {
      MarkedIsManifest(lines[n - 1]);
      if Marked(lines[n - 1]) {
        i := n - 1;
      } else {
        i := LastManifest(lines, n - 1);
      }
    }
  }

  lemma LoadableAt(lines: seq<Line>, j: nat)
    requires j < |lines|
    ensures Loadable(lines, j) && !lines[j].NonObject? <==>
      && (lines[j].Blank? || lines[j].Object?)
      && forall i :: 0 <= i < j && Marked(lines[i]) ==> lines[j].Blank? || Marked(lines[j])
  {
    NoManifestIff(lines, j);
    MarkedIsManifest(lines[j]);
    hide ManifestOf, IsManifest, Marked;
  }

  predicate OnlyEntries(items: seq<Item>) {
    forall i :: 0 <= i < |items| ==> items[i].Entry?
  }

  lemma {:induction false} AllObjects(lines: seq<Line>, n: nat)
    requires n <= |lines|
    ensures |RecordsOf(ItemsOf(lines, n))| == |ItemsOf(lines, n)| <==> forall i :: 0 <= i < n ==> !lines[i].NonObject?
  {
    hide IsManifest, RecordsOf;
    if n > 0 {
      AllObjects(lines, n - 1);
      AllEntries(ItemsOf(lines, n - 1));
      AllEntries(ItemsOf(lines, n));
      ItemsStep(lines, n);
    } else {
      AllEntries([]);
    }
  }

  lemma ItemsStep(lines: seq<Line>, n: nat)
    requires 0 < n <= |lines|
    ensures OnlyEntries(ItemsOf(lines, n)) <==> OnlyEntries(ItemsOf(lines, n - 1)) && !lines[n - 1].NonObject?
  {
    hide IsManifest;
    var items := ItemsOf(lines, n - 1);
    if IsData(lines[n - 1]) {
      var last := if lines[n - 1].NonObject? then NoObject else Entry(lines[n - 1].record);
      var next := ItemsOf(lines, n);
      assert next == items + [last];
      assert next[|items|] == last && forall i :: 0 <= i < |items| ==> next[i] == items[i];
    }
  }

  lemma {:induction false} AllEntries(items: seq<Item>)
    ensures |RecordsOf(items)| == |items| <==> OnlyEntries(items)
  {
    var data := RecordsOf(items);
    if |data| == |items| {
      assert forall i :: 0 <= i < |items| ==> items[i] == Entry(data[i]);
    }
  }

  lemma ShapeIff(lines: seq<Line>)
    ensures WellShaped(lines) <==>
      |DataOf(lines)| == |ItemsOf(lines, |lines|)| && forall i :: 0 <= i < |lines| ==> Loadable(lines, i)
  {
    AllObjects(lines, |lines|);
    forall j | 0 <= j < |lines| ensures Loadable(lines, j) && !lines[j].NonObject? <==>
      && (lines[j].Blank? || lines[j].Object?)
      && forall i :: 0 <= i < j && Marked(lines[i]) ==> lines[j].Blank? || Marked(lines[j])
    {
      LoadableAt(lines, j);
    }
    hide Loadable, Marked, ItemsOf, RecordsOf;
  }

  lemma CountIff(lines: seq<Line>, n: nat)
    ensures CountIs(lines, n) <==>
      (ManifestOf(lines, |lines|).Some? ==> Get(ManifestOf(lines, |lines|).value, "_entry_count") == JNumber(n))
  {
    NoManifestIff(lines, |lines|);
    if ManifestOf(lines, |lines|).Some? {
      var i := LastManifest(lines, |lines|);
      hide ManifestOf, Marked;
      assert LastMarked(lines, i);
      assert forall j :: 0 <= j < |lines| && LastMarked(lines, j) ==> j == i;
    }
  }

  /** A file is accepted exactly when it is attested. */
  lemma AcceptsIff(h: Hasher, lines: seq<Line>, payload: Option<OnChain>)
    ensures Accepts(h, lines, payload) <==> exists heads :: Attested(h, lines, payload, heads)
  {
    ShapeIff(lines);
    CountIff(lines, |DataOf(lines)|);
    var heads := HeadsRun(h, DataOf(lines));
    hide Loadable, LineOk, ItemsOf, ManifestOf, Head, DataOf, Carries, WellShaped, CountIs, Running, Accepts, Attested;
    if Accepts(h, lines, payload) { AttestedIff(h, lines, payload, heads); }
    forall other | Attested(h, lines, payload, other) ensures Accepts(h, lines, payload) {
      AttestedRuns(h, lines, payload, other);
      AttestedIff(h, lines, payload, other);
    }
  }

  lemma AttestedRuns(h: Hasher, lines: seq<Line>, payload: Option<OnChain>, heads: seq<string>)
    requires Attested(h, lines, payload, heads)
    ensures Running(h, DataOf(lines), heads)
  {
    hide Running;
  }

  lemma AttestedIff(h: Hasher, lines: seq<Line>, payload: Option<OnChain>, heads: seq<string>)
    requires Running(h, DataOf(lines), heads)
    ensures Accepts(h, lines, payload) <==> Attested(h, lines, payload, heads)
  {
    var data := DataOf(lines);
    ShapeIff(lines);
    CountIff(lines, |data|);
    RunningIsHead(h, data, heads, |data|);
    LinesCarry(h, data, heads);
    hide Loadable, ItemsOf, ManifestOf, Head, WellShaped, CountIs, Running, Get;
  }

  lemma LinesCarry(h: Hasher, data: seq<Record>, heads: seq<string>)
    requires Running(h, data, heads)
    ensures |heads| == |data| + 1
    ensures (forall i :: 0 <= i < |data| ==> LineOk(h, data, i)) <==>
      forall i :: 0 <= i < |data| ==> Carries(data[i], heads[i], heads[i + 1])
  {
    hide LineOk, Carries;
    if forall i :: 0 <= i < |data| ==> LineOk(h, data, i) {
      forall i | 0 <= i < |data| ensures Carries(data[i], heads[i], heads[i + 1]) {
        LineStores(h, data, heads, i);
      }
    }
    if forall i :: 0 <= i < |data| ==> Carries(data[i], heads[i], heads[i + 1]) {
      forall i | 0 <= i < |data| ensures LineOk(h, data, i) {
        LineStores(h, data, heads, i);
      }
    }
  }

  /** One anchor, one history: two files that verify against the same published payload say the same,
      record by record, or a collision is exhibited. */
  lemma OneAnchorOneHistory(h: Hasher, lines1: seq<Line>, lines2: seq<Line>, payload: Option<OnChain>)
    returns (e: Evidence)
    requires Rendering(h) && Accepts(h, lines1, payload) && Accepts(h, lines2, payload)
    ensures e.SameEntries? || (e.CollisionFound? && Collision(h, e.s, e.t))
    ensures e.SameEntries? ==>
      var a, b := DataOf(lines1), DataOf(lines2);
      |a| == |b| && forall i :: 0 <= i < |a| ==> SameContent(a[i], b[i])
  {
    e := AnchorBinding(h, DataOf(lines1), DataOf(lines2));
  }

  // ---- annotated exports and edits ----

  /** The record with the stored hashes that the export writes. */
  function Annotated(h: Hasher, data: seq<Record>, i: nat): Record
    requires i < |data|
  {
    data[i]["_prev_hash" := JString(Head(h, data, i))]["_chain_hash" := JString(Head(h, data, i + 1))]
  }

  function Annotate(h: Hasher, data: seq<Record>): (r: seq<Record>)
    ensures |r| == |data| && forall i :: 0 <= i < |r| ==> r[i] == Annotated(h, data, i)
  {
    seq(|data|, i requires 0 <= i < |data| => Annotated(h, data, i))
  }

  /** Keys with an underscore never matter, and the two forward-only keys not between missing and null. */
  lemma IgnoredKeys(record: Record, key: string, v: Json)
    requires (key != "" && key[0] == '_')
          || ((key == "constraint_violation" || key == "reason_code") && v == JNull && Nullish(record, key))
    ensures SameContent(record[key := v], record) && Clean(record[key := v]) == Clean(record)
  {
    CleanIff(record[key := v], record);
    hide Clean;
  }

  lemma {:induction false} HeadOfSameEntries(h: Hasher, a: seq<Record>, b: seq<Record>, n: nat)
    requires n <= |a| && n <= |b| && forall i :: 0 <= i < n ==> Clean(a[i]) == Clean(b[i])
    ensures Head(h, a, n) == Head(h, b, n)
  {
    if n > 0 { HeadOfSameEntries(h, a, b, n - 1); }
  }

  /** The stored hashes of the file are those the export wrote for data. */
  ghost predicate CarriesHashesOf(h: Hasher, edited: seq<Record>, data: seq<Record>) {
    && |edited| == |data|
    && (forall i :: 0 <= i < |data| ==> Get(edited[i], "_prev_hash") == JString(Head(h, data, i)))
    && (forall i :: 0 <= i < |data| ==> Get(edited[i], "_chain_hash") == JString(Head(h, data, i + 1)))
  }

  lemma SameEntriesKeepLines(h: Hasher, data: seq<Record>, edited: seq<Record>, n: nat)
    requires CarriesHashesOf(h, edited, data) && n <= |data|
    requires forall i :: 0 <= i < n ==> Clean(edited[i]) == Clean(data[i])
    ensures forall i :: 0 <= i < n ==> LineOk(h, edited, i)
  {
    hide Clean;
    hide Head;
    forall i | 0 <= i < n ensures LineOk(h, edited, i) {
      HeadOfSameEntries(h, edited, data, i);
      HeadOfSameEntries(h, edited, data, i + 1);
    }
  }

  /** Edits that leave the stored hashes and what the records say alone are accepted, with the same head. */
  lemma HarmlessEditIsAccepted(h: Hasher, data: seq<Record>, edited: seq<Record>)
    requires CarriesHashesOf(h, edited, data)
    requires forall i :: 0 <= i < |data| ==> SameContent(edited[i], data[i])
    ensures Recompute(h, edited, |edited|) == HeadOk(Head(h, data, |data|), |data|)
  {
    hide Clean, Head, Recompute, LineOk, SameContent;
    forall i | 0 <= i < |data| ensures Clean(edited[i]) == Clean(data[i]) {
      CleanIff(edited[i], data[i]);
    }
    SameEntriesKeepLines(h, data, edited, |data|);
    RecomputeIff(h, edited, |data|);
    HeadOfSameEntries(h, edited, data, |data|);
  }

  /** A changed entry gives another text to hash at that line. */
  lemma ChangedText(h: Hasher, prev: string, a: Record, b: Record)
    requires Rendering(h) && Clean(a) != Clean(b)
    ensures prev + EntryCanonical(h, a) != prev + EntryCanonical(h, b)
  {
    hide Clean;
    if prev + EntryCanonical(h, a) == prev + EntryCanonical(h, b) {
      ConcatInjective(prev, prev, EntryCanonical(h, a), EntryCanonical(h, b));
    }
  }

  lemma ChangedLine(h: Hasher, data: seq<Record>, edited: seq<Record>, k: nat)
    requires CarriesHashesOf(h, edited, data) && k < |data| && Head(h, edited, k) == Head(h, data, k)
    requires ChainHash(h, Head(h, data, k), EntryCanonical(h, edited[k])) != ChainHash(h, Head(h, data, k), EntryCanonical(h, data[k]))
    ensures LinkOk(h, edited, k) && !LineOk(h, edited, k)
  {
    hide EntryCanonical, ChainHash, Get;
  }

  /** After edits that leave the stored hashes alone, the fold names the first line k that says something else,
      with a content mismatch, or the old and the new text of that line collide. */
  lemma EditIsNamed(h: Hasher, data: seq<Record>, edited: seq<Record>, k: nat) returns (s: string, t: string)
    requires Rendering(h) && CarriesHashesOf(h, edited, data)
    requires k < |data| && !SameContent(edited[k], data[k])
    requires forall i :: 0 <= i < k ==> SameContent(edited[i], data[i])
    ensures Recompute(h, edited, |edited|) == HashMismatch(k + 1) || Collision(h, s, t)
  {
    hide Clean, Recompute, LineOk, LinkOk, Head, EntryCanonical, SameContent;
    forall i | 0 <= i <= k ensures Clean(edited[i]) == Clean(data[i]) <==> SameContent(edited[i], data[i]) {
      CleanIff(edited[i], data[i]);
    }
    var prev := Head(h, data, k);
    s, t := prev + EntryCanonical(h, data[k]), prev + EntryCanonical(h, edited[k]);
    ChangedText(h, prev, data[k], edited[k]);
    if !Collision(h, s, t) {
      HeadOfSameEntries(h, edited, data, k);
      SameEntriesKeepLines(h, data, edited, k);
      ChangedLine(h, data, edited, k);
      RecomputeIff(h, edited, |data|);
    }
  }

  lemma AnnotationIsIgnored(h: Hasher, data: seq<Record>, i: nat)
    requires i < |data|
    ensures SameContent(Annotated(h, data, i), data[i]) && Clean(Annotated(h, data, i)) == Clean(data[i])
    ensures Get(Annotated(h, data, i), "_prev_hash") == JString(Head(h, data, i))
    ensures Get(Annotated(h, data, i), "_chain_hash") == JString(Head(h, data, i + 1))
  {
    hide Head;
    CleanIff(Annotated(h, data, i), data[i]);
    hide Clean, SameContent;
    var r, p, c := data[i], JString(Head(h, data, i)), JString(Head(h, data, i + 1));
    IgnoredKeys(r, "_prev_hash", p);
    IgnoredKeys(r["_prev_hash" := p], "_chain_hash", c);
    assert "_prev_hash"[1] != "_chain_hash"[1];
  }

  /** A file annotated by the fold is accepted by the fold, with the same head. */
  lemma AnnotatedIsAccepted(h: Hasher, data: seq<Record>)
    ensures Recompute(h, Annotate(h, data), |data|) == HeadOk(Head(h, data, |data|), |data|)
  {
    hide Clean, Head, Get, Recompute, Annotated, SameContent;
    var r := Annotate(h, data);
    forall i | 0 <= i < |data|
      ensures SameContent(r[i], data[i])
      ensures Get(r[i], "_prev_hash") == JString(Head(h, data, i))
      ensures Get(r[i], "_chain_hash") == JString(Head(h, data, i + 1))
    {
      AnnotationIsIgnored(h, data, i);
    }
    HarmlessEditIsAccepted(h, data, r);
  }

  /** The hash of one line recomputed on its own, for the signed list of the manifest. */
  method ChainHashOfLine(h: Hasher, record: Record, data: seq<Record>, idx: nat) returns (r: Hex64)
    requires idx < |data|
    ensures r == ChainHash(h, Head(h, data, idx), EntryCanonical(h, record))
    ensures record == data[idx] ==> r == Head(h, data, idx + 1)
  {
    var prev: Hex64 := GENESIS;
    for i := 0 to idx
      invariant prev == Head(h, data, i)
    {
      prev := ChainHash(h, prev, EntryCanonical(h, data[i]));
    }
    r := ChainHash(h, prev, EntryCanonical(h, record));
  }
}
