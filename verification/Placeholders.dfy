/** The two SQL placeholder converters: `?` to `:p1`, `:p2`, ..., and the scanner that turns
    named placeholders back into `?`. */
module Placeholders {
  import opened Wrappers
  import opened Digits

  datatype Converted<V> = Converted(sql: string, params: map<string, V>) | ValueError

  /** Python's character classes, as far as the scanner asks for them. */
  datatype CharClass = CharClass(isAlpha: char -> bool, isAlnum: char -> bool)

  /** What the converters rely on: p and the digits may occur in names, `:` and `?` may not. */
  ghost predicate PythonLike(cc: CharClass) {
    && cc.isAlpha('p') && cc.isAlnum('p')
    && (forall c :: IsDigit(c) ==> cc.isAlnum(c))
    && (forall c :: cc.isAlpha(c) ==> cc.isAlnum(c))
    && !cc.isAlnum(':') && !cc.isAlnum('?')
  }

  predicate IsStart(cc: CharClass, c: char) { cc.isAlpha(c) || c == '_' }

  predicate IsIdent(cc: CharClass, c: char) { cc.isAlnum(c) || c == '_' }

  function Key(i: nat): string { "p" + Decimal(i) }

  // ---- `?` to `:pN` ----

  /** sql.split("?") */
  function Split(sql: string): (parts: seq<string>)
    ensures |parts| == 1 + Count(sql)
  {
    if sql == "" then [""]
    else if sql[0] == '?' then [""] + Split(sql[1..])
    else
      var rest := Split(sql[1..]);
      [[sql[0]] + rest[0]] + rest[1..]
  }

  function Count(sql: string): nat {
    if sql == "" then 0 else (if sql[0] == '?' then 1 else 0) + Count(sql[1..])
  }

  /** The named text of sql, numbering its placeholders from k. */
  function NamedFrom(sql: string, k: nat): string {
    if sql == "" then ""
    else if sql[0] == '?' then ":" + Key(k) + NamedFrom(sql[1..], k + 1)
    else [sql[0]] + NamedFrom(sql[1..], k)
  }

  /** parts[0] :p1 parts[1] :p2 ..., starting with placeholder number k. */
  function Weave(parts: seq<string>, k: nat): string {
    if |parts| == 0 then ""
    else if |parts| == 1 then parts[0]
    else parts[0] + ":" + Key(k) + Weave(parts[1..], k + 1)
  }

  lemma {:induction false} WeaveSplit(sql: string, k: nat)
    ensures Weave(Split(sql), k) == NamedFrom(sql, k)
  {
    hide Key;
    if sql != "" {
      if sql[0] == '?' {
        WeaveSplit(sql[1..], k + 1);
        assert Split(sql)[1..] == Split(sql[1..]);
        assert "" + ":" == ":";
      } else {
        WeaveSplit(sql[1..], k);
        var rest := Split(sql[1..]);
        assert Split(sql)[1..] == rest[1..];
        if |rest| > 1 {
          Regroup([sql[0]], rest[0], ":", Key(k), Weave(rest[1..], k + 1));
        }
      }
    }
  }

  lemma Regroup(a: string, b: string, c: string, d: string, e: string)
    ensures (a + b) + c + d + e == a + (b + c + d + e)
  {
    assert a + (b + c + d + e) == (a + (b + c + d)) + e;
    assert a + (b + c + d) == (a + (b + c)) + d;
    assert a + (b + c) == (a + b) + c;
  }

  lemma {:induction false} WeaveSnoc(parts: seq<string>, k: nat, part: string)
    requires |parts| > 0
    ensures Weave(parts + [part], k) == Weave(parts, k) + ":" + Key(k + |parts| - 1) + part
  {
    hide Key;
    if |parts| == 1 {
      assert (parts + [part])[1..] == [part];
    } else {
      WeaveSnoc(parts[1..], k + 1, part);
      assert (parts + [part])[1..] == parts[1..] + [part];
      Regroup(parts[0] + ":" + Key(k), Weave(parts[1..], k + 1), ":", Key(k + |parts| - 1), part);
    }
  }

  /** The dictionary p1, ..., pn of the first n parameters. */
  function Dict<V>(params: seq<V>, n: nat): (d: map<string, V>)
    requires n <= |params|
  {
    if n == 0 then map[] else Dict(params, n - 1)[Key(n) := params[n - 1]]
  }

  predicate IsKey(key: string, n: nat) {
    exists i :: 1 <= i <= n && key == Key(i)
  }

  lemma KeysDiffer(i: nat, n: nat)
    requires i != n
    ensures Key(i) != Key(n)
  {
    if Key(i) == Key(n) {
      assert Key(i)[1..] == Decimal(i) && Key(n)[1..] == Decimal(n);
      DecimalInjective(i, n);
    }
  }

  lemma {:induction false} DictEntries<V>(params: seq<V>, n: nat)
    requires n <= |params|
    ensures forall i :: 1 <= i <= n ==> Key(i) in Dict(params, n) && Dict(params, n)[Key(i)] == params[i - 1]
    ensures forall key :: key in Dict(params, n) <==> IsKey(key, n)
  {
    if n > 0 {
      DictEntries(params, n - 1);
      hide Key;
      forall i | 1 <= i < n ensures Key(i) != Key(n) {
        KeysDiffer(i, n);
      }
      forall key ensures key in Dict(params, n) <==> IsKey(key, n) {
        if IsKey(key, n - 1) {
          var i :| 1 <= i <= n - 1 && key == Key(i);
          assert IsKey(key, n);
        }
        if key == Key(n) { assert IsKey(key, n); }
        if IsKey(key, n) && key != Key(n) {
          var i :| 1 <= i <= n && key == Key(i);
          assert IsKey(key, n - 1);
        }
      }
    }
  }

  /** :names[0] parts[0] :names[1] parts[1] ... */
  function WithNames(names: seq<string>, parts: seq<string>): string
    requires |names| == |parts|
  {
    if names == [] then "" else ":" + names[0] + parts[0] + WithNames(names[1..], parts[1..])
  }

  /** ? parts[0] ? parts[1] ... */
  function WithMarks(parts: seq<string>): string {
    if parts == [] then "" else "?" + parts[0] + WithMarks(parts[1..])
  }

  /** p<k>, p<k+1>, ... */
  function KeysFrom(k: nat, n: nat): (keys: seq<string>)
    ensures |keys| == n && forall i :: 0 <= i < n ==> keys[i] == "p" + Decimal(k + i)
    decreases n
  {
    if n == 0 then [] else ["p" + Decimal(k)] + KeysFrom(k + 1, n - 1)
  }

  lemma {:induction false} WeaveIsWithNames(parts: seq<string>, k: nat)
    requires parts != []
    ensures Weave(parts, k) == parts[0] + WithNames(KeysFrom(k, |parts| - 1), parts[1..])
  {
    if |parts| == 1 {
      assert parts[0] + "" == parts[0];
    } else {
      WeaveIsWithNames(parts[1..], k + 1);
      var keys, tail := KeysFrom(k, |parts| - 1), WithNames(KeysFrom(k + 1, |parts| - 2), parts[2..]);
      assert keys[0] == "p" + Decimal(k) && keys[1..] == KeysFrom(k + 1, |parts| - 2) && parts[1..][1..] == parts[2..];
      hide Decimal;
      Regroup("", parts[0], ":" + keys[0], parts[1], tail);
    }
  }

  lemma {:induction false} SplitIsWithMarks(sql: string)
    ensures var parts := Split(sql);
      && sql == parts[0] + WithMarks(parts[1..])
      && (forall i :: 0 <= i < |parts| ==> '?' !in parts[i])
  {
    if sql != "" {
      SplitIsWithMarks(sql[1..]);
      var parts, rest := Split(sql), Split(sql[1..]);
      assert sql == [sql[0]] + sql[1..];
      if sql[0] == '?' {
        assert parts[1..] == rest && rest[1..] == parts[1..][1..];
        assert "" + WithMarks(parts[1..]) == WithMarks(parts[1..]);
        assert "?" + rest[0] + WithMarks(rest[1..]) == "?" + (rest[0] + WithMarks(rest[1..]));
      } else {
        assert parts[1..] == rest[1..];
        assert [sql[0]] + rest[0] + WithMarks(rest[1..]) == [sql[0]] + (rest[0] + WithMarks(rest[1..]));
      }
    }
  }

  function ToNamed<V>(sql: string, params: seq<V>): Converted<V> {
    if Count(sql) != |params| then ValueError
    else Converted(NamedFrom(sql, 1), Dict(params, |params|))
  }

  lemma KeyOf(n: nat, i: nat)
    requires i < n
    ensures KeysFrom(1, n)[i] == Key(i + 1)
  {
  }

  lemma EntriesOfDict<V>(params: seq<V>)
    ensures var keys, d := KeysFrom(1, |params|), Dict(params, |params|);
      forall i :: 0 <= i < |params| ==> keys[i] in d && d[keys[i]] == params[i]
  {
    var keys, d := KeysFrom(1, |params|), Dict(params, |params|);
    DictEntries(params, |params|);
    hide Key, Dict, IsKey, Decimal, KeysFrom;
    forall i | 0 <= i < |params| ensures keys[i] in d && d[keys[i]] == params[i] {
      KeyOf(|params|, i);
    }
  }

  lemma KeysOfDict<V>(params: seq<V>)
    ensures forall key :: key in Dict(params, |params|) ==> key in KeysFrom(1, |params|)
  {
    var n := |params|;
    DictEntries(params, n);
    hide Key, Decimal, Dict, KeysFrom;
    forall key | key in Dict(params, n) ensures key in KeysFrom(1, n) {
      var i :| 1 <= i <= n && key == Key(i);
      KeyOf(n, i - 1);
    }
  }

  /** The text, cut at its `?`, has p1, p2, ... in their place, and these name the parameters; or their numbers
      differ. */
  predicate NamedWith<V(==)>(sql: string, params: seq<V>, r: Converted<V>, first: string, parts: seq<string>) {
    && sql == first + WithMarks(parts) && '?' !in first && (forall i :: 0 <= i < |parts| ==> '?' !in parts[i])
    && (r.ValueError? <==> |parts| != |params|)
    && (r.Converted? ==>
          && |parts| == |params| && r.sql == first + WithNames(KeysFrom(1, |params|), parts)
          && (forall i :: 0 <= i < |params| ==>
                KeysFrom(1, |params|)[i] in r.params && r.params[KeysFrom(1, |params|)[i]] == params[i])
          && forall key :: key in r.params ==> key in KeysFrom(1, |params|))
  }

  lemma ToNamedMeans<V>(sql: string, params: seq<V>)
    ensures NamedWith(sql, params, ToNamed(sql, params), Split(sql)[0], Split(sql)[1..])
  {
    SplitIsWithMarks(sql);
    WeaveIsWithNames(Split(sql), 1);
    WeaveSplit(sql, 1);
    EntriesOfDict(params);
    KeysOfDict(params);
    var parts := Split(sql);
    hide WithMarks, WithNames, KeysFrom, Dict, Decimal, Split, NamedFrom, Weave, Count;
    assert forall i :: 0 <= i < |parts| - 1 ==> parts[1..][i] == parts[i + 1];
  }

  method QToNamed<V(==)>(sql: string, params: seq<V>) returns (r: Converted<V>)
    ensures r == ToNamed(sql, params)
    ensures exists first, parts :: NamedWith(sql, params, r, first, parts)
  {
    ToNamedMeans(sql, params);
    hide NamedWith;
    var parts := Split(sql);
    if |parts| - 1 != |params| {
      return ValueError;
    }
    var paramDict: map<string, V> := map[];
    var result := parts[0];
    for i := 1 to |parts|
      invariant result == Weave(parts[..i], 1)
      invariant paramDict == Dict(params, i - 1)
    {
      paramDict := paramDict[Key(i) := params[i - 1]];
      assert parts[..i + 1] == parts[..i] + [parts[i]];
      WeaveSnoc(parts[..i], 1, parts[i]);
      result := result + ":" + Key(i) + parts[i];
    }
    assert parts[..|parts|] == parts;
    WeaveSplit(sql, 1);
    r := Converted(result, paramDict);
  }

  // ---- `:name` to `?` ----

  /** Length of the longest prefix of identifier characters. */
  function RunLen(cc: CharClass, s: string): (n: nat)
    ensures n <= |s| && (forall i :: 0 <= i < n ==> IsIdent(cc, s[i])) && (n < |s| ==> !IsIdent(cc, s[n]))
  {
    if s == "" || !IsIdent(cc, s[0]) then 0 else 1 + RunLen(cc, s[1..])
  }

  /** The name that follows a `:` at the head of s, if there is one. */
  function NameAt(cc: CharClass, s: string): Option<string> {
    if |s| > 1 && s[0] == ':' && IsStart(cc, s[1]) then Some(s[1..1 + RunLen(cc, s[1..])]) else None
  }

  /** The scanner: positional text and positional parameters. */
  function Scan<V>(cc: CharClass, s: string, d: map<string, V>): (r: (string, seq<V>))
    decreases |s|
  {
    if s == "" then ("", [])
    else
      match NameAt(cc, s)
      case Some(key) =>
        if key in d then
          var rest := Scan(cc, s[1 + |key|..], d);
          ("?" + rest.0, [d[key]] + rest.1)
        else
          var rest := Scan(cc, s[1..], d);
          ([s[0]] + rest.0, rest.1)
      case None =>
        var rest := Scan(cc, s[1..], d);
        ([s[0]] + rest.0, rest.1)
  }

  lemma ScanStep<V>(cc: CharClass, s: string, d: map<string, V>)
    requires s != ""
    ensures NameAt(cc, s).Some? && NameAt(cc, s).value in d ==>
      var key := NameAt(cc, s).value;
      var rest := Scan(cc, s[1 + |key|..], d);
      Scan(cc, s, d).0 == "?" + rest.0 && Scan(cc, s, d).1 == [d[key]] + rest.1
    ensures !(NameAt(cc, s).Some? && NameAt(cc, s).value in d) ==>
      var rest := Scan(cc, s[1..], d);
      Scan(cc, s, d).0 == [s[0]] + rest.0 && Scan(cc, s, d).1 == rest.1
  {
  }

  lemma NameInText(cc: CharClass, text: string, i: nat, j: nat)
    requires i + 1 <= j <= |text| && i + 1 < |text| && text[i] == ':' && IsStart(cc, text[i + 1])
    requires RunLen(cc, text[i + 1..]) == j - (i + 1)
    ensures NameAt(cc, text[i..]) == Some(text[i + 1..j])
  {
    assert text[i..][1..] == text[i + 1..];
    assert text[i..][1..1 + (j - (i + 1))] == text[i + 1..j];
  }

  lemma RunStep(cc: CharClass, text: string, j: nat)
    requires j < |text| && IsIdent(cc, text[j])
    ensures RunLen(cc, text[j..]) == 1 + RunLen(cc, text[j + 1..])
  {
    assert text[j..][1..] == text[j + 1..];
  }

  lemma RunStop(cc: CharClass, text: string, j: nat)
    requires j <= |text| && (j < |text| ==> !IsIdent(cc, text[j]))
    ensures RunLen(cc, text[j..]) == 0
  {
  }

  method ExecuteScan<V>(cc: CharClass, sqlStr: string, parameters: map<string, V>)
    returns (sql: string, posParams: seq<V>)
    ensures sql == Scan(cc, sqlStr, parameters).0 && posParams == Scan(cc, sqlStr, parameters).1
  {
    hide Scan, NameAt, RunLen, IsStart, IsIdent;
    sql, posParams := "", [];
    var i := 0;
    assert sqlStr[0..] == sqlStr;
    while i < |sqlStr|
      invariant 0 <= i <= |sqlStr|
      invariant Scan(cc, sqlStr, parameters).0 == sql + Scan(cc, sqlStr[i..], parameters).0
      invariant Scan(cc, sqlStr, parameters).1 == posParams + Scan(cc, sqlStr[i..], parameters).1
    {
      ghost var s := sqlStr[i..];
      ScanStep(cc, s, parameters);
      assert s[1..] == sqlStr[i + 1..];
      if sqlStr[i] == ':' && i + 1 < |sqlStr| && IsStart(cc, sqlStr[i + 1]) {
        var j := i + 1;
        while j < |sqlStr| && IsIdent(cc, sqlStr[j])
          invariant i + 1 <= j <= |sqlStr|
          invariant RunLen(cc, sqlStr[i + 1..]) == j - (i + 1) + RunLen(cc, sqlStr[j..])
        {
          RunStep(cc, sqlStr, j);
          j := j + 1;
        }
        RunStop(cc, sqlStr, j);
        var key := sqlStr[i + 1..j];
        NameInText(cc, sqlStr, i, j);
        if key in parameters {
          assert s[1 + |key|..] == sqlStr[j..];
          Assoc(sql, "?", Scan(cc, sqlStr[j..], parameters).0);
          Assoc(posParams, [parameters[key]], Scan(cc, sqlStr[j..], parameters).1);
          posParams := posParams + [parameters[key]];
          sql := sql + "?";
          i := j;
          continue;
        }
      } else {
        NoName(cc, s);
      }
      Assoc(sql, [sqlStr[i]], Scan(cc, sqlStr[i + 1..], parameters).0);
      sql := sql + [sqlStr[i]];
      i := i + 1;
    }
    ScanEmpty(cc, sqlStr[i..], parameters);
  }

  lemma Assoc<T>(a: seq<T>, b: seq<T>, c: seq<T>)
    ensures a + (b + c) == (a + b) + c
  {
  }

  lemma NoName(cc: CharClass, s: string)
    requires !(|s| > 1 && s[0] == ':' && IsStart(cc, s[1]))
    ensures NameAt(cc, s) == None
  {
  }

  lemma ScanEmpty<V>(cc: CharClass, s: string, d: map<string, V>)
    requires s == ""
    ensures Scan(cc, s, d) == ("", [])
  {
  }

  // ---- named text ----

  /** A name that the scanner reads whole. */
  predicate IsName(cc: CharClass, name: string) {
    && name != "" && (cc.isAlpha(name[0]) || name[0] == '_')
    && forall i :: 0 <= i < |name| ==> cc.isAlnum(name[i]) || name[i] == '_'
  }

  /** Text that ends a name and starts none: without `:`, and not beginning with a character of a name. */
  predicate IsGap(cc: CharClass, part: string) {
    && (forall i :: 0 <= i < |part| ==> part[i] != ':')
    && (part != "" ==> !cc.isAlnum(part[0]) && part[0] != '_')
  }

  /** The same text with `?` for each name that d supplies; the others stay. */
  function Substituted<V>(names: seq<string>, parts: seq<string>, d: map<string, V>): string
    requires |names| == |parts|
  {
    if names == [] then ""
    else (if names[0] in d then "?" else ":" + names[0]) + parts[0] + Substituted(names[1..], parts[1..], d)
  }

  /** The values of the supplied names, in the order of the text. */
  function ValuesOf<V>(names: seq<string>, d: map<string, V>): seq<V> {
    if names == [] then [] else (if names[0] in d then [d[names[0]]] else []) + ValuesOf(names[1..], d)
  }

  /** Text without `:` is copied. */
  lemma {:induction false} ScanCopies<V>(cc: CharClass, part: string, rest: string, d: map<string, V>)
    requires forall i :: 0 <= i < |part| ==> part[i] != ':'
    ensures Scan(cc, part + rest, d) == (part + Scan(cc, rest, d).0, Scan(cc, rest, d).1)
  {
    if part == "" {
      assert part + rest == rest && part + Scan(cc, rest, d).0 == Scan(cc, rest, d).0;
    } else {
      var s := part + rest;
      assert s[1..] == part[1..] + rest;
      ScanCopies(cc, part[1..], rest, d);
      NoName(cc, s);
      ScanStep(cc, s, d);
      hide Scan, NameAt;
      HeadTail(part, 0);
      Assoc([part[0]], part[1..], Scan(cc, rest, d).0);
    }
  }

  lemma NameIsRead(cc: CharClass, name: string, rest: string)
    requires IsName(cc, name) && (rest != "" ==> !cc.isAlnum(rest[0]) && rest[0] != '_')
    ensures NameAt(cc, ":" + (name + rest)) == Some(name)
  {
    assert forall i :: 0 <= i < |name| ==> IsIdent(cc, name[i]);
    assert RunLen(cc, rest) == 0;
    hide RunLen;
    NameOfKeyed(cc, name, rest);
    assert name + rest[..0] == name;
  }

  lemma ScanSupplied<V>(cc: CharClass, name: string, rest: string, d: map<string, V>)
    requires NameAt(cc, ":" + (name + rest)) == Some(name) && name in d
    ensures Scan(cc, ":" + (name + rest), d) == ("?" + Scan(cc, rest, d).0, [d[name]] + Scan(cc, rest, d).1)
  {
    var s := ":" + (name + rest);
    ScanStep(cc, s, d);
    hide Scan, NameAt;
    assert s[1 + |name|..] == rest;
  }

  lemma ScanUnknown<V>(cc: CharClass, name: string, rest: string, d: map<string, V>)
    requires NameAt(cc, ":" + (name + rest)) == Some(name) && name !in d
    requires forall i :: 0 <= i < |name| ==> name[i] != ':'
    ensures Scan(cc, ":" + (name + rest), d) == (":" + name + Scan(cc, rest, d).0, Scan(cc, rest, d).1)
  {
    var s := ":" + (name + rest);
    ScanStep(cc, s, d);
    ScanCopies(cc, name, rest, d);
    hide Scan, NameAt;
    assert s[1..] == name + rest;
    Assoc(":", name, Scan(cc, rest, d).0);
  }

  /** A whole name. */
  lemma ScanName<V>(cc: CharClass, name: string, rest: string, d: map<string, V>)
    requires !cc.isAlnum(':') && IsName(cc, name) && (rest != "" ==> !cc.isAlnum(rest[0]) && rest[0] != '_')
    ensures Scan(cc, ":" + (name + rest), d) ==
      if name in d then ("?" + Scan(cc, rest, d).0, [d[name]] + Scan(cc, rest, d).1)
      else (":" + name + Scan(cc, rest, d).0, Scan(cc, rest, d).1)
  {
    NameIsRead(cc, name, rest);
    assert forall i :: 0 <= i < |name| ==> name[i] != ':';
    hide Scan, NameAt, IsName;
    if name in d { ScanSupplied(cc, name, rest, d); } else { ScanUnknown(cc, name, rest, d); }
  }

  lemma {:induction false} ScanFromName<V>(cc: CharClass, names: seq<string>, parts: seq<string>, d: map<string, V>)
    requires !cc.isAlnum(':') && |names| == |parts|
    requires forall i :: 0 <= i < |names| ==> IsName(cc, names[i]) && IsGap(cc, parts[i])
    ensures Scan(cc, WithNames(names, parts), d) == (Substituted(names, parts, d), ValuesOf(names, d))
  {
    hide Scan, IsName;
    if names == [] {
      ScanEmpty(cc, "", d);
    } else {
      var tail := WithNames(names[1..], parts[1..]);
      ScanFromName(cc, names[1..], parts[1..], d);
      NamesStep(names, parts);
      SubstitutedStep(names, parts, d);
      RestEndsName(cc, parts[0], names[1..], parts[1..]);
      ScanCopies(cc, parts[0], tail, d);
      hide WithNames, Substituted, ValuesOf, IsGap;
      ScanName(cc, names[0], parts[0] + tail, d);
      Regrouped(names[0], parts[0], Substituted(names[1..], parts[1..], d));
    }
  }

  lemma RestEndsName(cc: CharClass, part: string, names: seq<string>, parts: seq<string>)
    requires !cc.isAlnum(':') && |names| == |parts| && IsGap(cc, part)
    ensures var rest := part + WithNames(names, parts); rest != "" ==> !cc.isAlnum(rest[0]) && rest[0] != '_'
  {
    if part == "" && names != [] {
      NamesStep(names, parts);
      assert (part + WithNames(names, parts))[0] == ':';
    }
  }

  lemma NamesStep(names: seq<string>, parts: seq<string>)
    requires |names| == |parts| > 0
    ensures WithNames(names, parts) == ":" + (names[0] + (parts[0] + WithNames(names[1..], parts[1..])))
  {
    var tail := WithNames(names[1..], parts[1..]);
    Assoc(":" + names[0], parts[0], tail);
    Assoc(":", names[0], parts[0] + tail);
  }

  lemma SubstitutedStep<V>(names: seq<string>, parts: seq<string>, d: map<string, V>)
    requires |names| == |parts| > 0
    ensures Substituted(names, parts, d) ==
      (if names[0] in d then "?" else ":" + names[0]) + parts[0] + Substituted(names[1..], parts[1..], d)
    ensures ValuesOf(names, d) == if names[0] in d then [d[names[0]]] + ValuesOf(names[1..], d) else ValuesOf(names[1..], d)
  {
  }

  lemma Regrouped(name: string, part: string, rest: string)
    ensures "?" + part + rest == "?" + (part + rest) && ":" + name + part + rest == ":" + name + (part + rest)
  {
  }

  /** Named text, for any dictionary: each supplied name becomes `?` and its value is passed, in order; a name
      that is not supplied, and all other text, stays as it is. */
  lemma ScanWithNames<V>(cc: CharClass, first: string, names: seq<string>, parts: seq<string>, d: map<string, V>)
    requires !cc.isAlnum(':') && |names| == |parts| && forall i :: 0 <= i < |first| ==> first[i] != ':'
    requires forall i :: 0 <= i < |names| ==> IsName(cc, names[i]) && IsGap(cc, parts[i])
    ensures Scan(cc, first + WithNames(names, parts), d) == (first + Substituted(names, parts, d), ValuesOf(names, d))
  {
    ScanFromName(cc, names, parts, d);
    ScanCopies(cc, first, WithNames(names, parts), d);
    hide *;
  }

  // ---- round trip ----

  /** No placeholder is directly followed by an identifier character, and no `:pN` of the text
      itself names one of the n parameters. */
  ghost predicate Clean(cc: CharClass, sql: string, n: nat) {
    forall i :: 0 <= i < |sql| ==> CleanAt(cc, sql[i..], n)
  }

  ghost predicate CleanAt(cc: CharClass, s: string, n: nat)
    requires s != ""
  {
    && (s[0] == '?' && |s| > 1 ==> !IsIdent(cc, s[1]))
    && (NameAt(cc, s).Some? ==> !IsKey(NameAt(cc, s).value, n))
  }

  lemma CleanStep(cc: CharClass, sql: string, n: nat)
    requires sql != ""
    ensures Clean(cc, sql, n) <==> CleanAt(cc, sql, n) && Clean(cc, sql[1..], n)
  {
    assert sql[0..] == sql;
    assert forall i :: 0 <= i < |sql| - 1 ==> sql[1..][i..] == sql[i + 1..];
    if CleanAt(cc, sql, n) && Clean(cc, sql[1..], n) {
      forall i | 0 <= i < |sql| ensures CleanAt(cc, sql[i..], n) {
        if i > 0 { assert sql[i..] == sql[1..][i - 1..]; }
      }
    }
    if Clean(cc, sql, n) {
      forall i | 0 <= i < |sql[1..]| ensures CleanAt(cc, sql[1..][i..], n) {
        assert sql[1..][i..] == sql[i + 1..];
      }
    }
  }

  lemma RunCons(cc: CharClass, c: char, s: string)
    ensures RunLen(cc, [c] + s) == if IsIdent(cc, c) then 1 + RunLen(cc, s) else 0
  {
    assert ([c] + s)[1..] == s;
  }

  lemma NamedText(sql: string, k: nat)
    requires sql != "" && sql[0] != '?'
    ensures NamedFrom(sql, k) == [sql[0]] + NamedFrom(sql[1..], k)
  {
  }

  lemma NotIdent(cc: CharClass)
    requires PythonLike(cc)
    ensures !IsIdent(cc, ':') && !IsIdent(cc, '?')
  {
  }

  /** Naming the placeholders does not touch runs of identifier characters. */
  lemma {:induction false} RunOfNamed(cc: CharClass, sql: string, k: nat)
    requires PythonLike(cc)
    ensures RunLen(cc, NamedFrom(sql, k)) == RunLen(cc, sql)
    ensures var r := RunLen(cc, sql); r <= |NamedFrom(sql, k)| && NamedFrom(sql, k)[..r] == sql[..r]
  {
    hide Key, PythonLike, IsIdent;
    if sql != "" {
      var rest := sql[1..];
      HeadTail(sql, 0);
      NotIdent(cc);
      RunCons(cc, sql[0], rest);
      if sql[0] == '?' {
        NamedPlaceholder(sql, k);
        RunCons(cc, ':', Key(k) + NamedFrom(rest, k + 1));
        hide NamedFrom, RunLen;
      } else {
        NamedText(sql, k);
        RunCons(cc, sql[0], NamedFrom(rest, k));
        RunOfNamed(cc, rest, k);
        hide NamedFrom, RunLen;
        TakeConcat([sql[0]], NamedFrom(rest, k), RunLen(cc, rest));
        TakeConcat([sql[0]], rest, RunLen(cc, rest));
      }
    }
  }

  /** The run of a placeholder is its own key followed by the run of what comes next. */
  lemma {:induction false} RunOfIdents(cc: CharClass, name: string, rest: string)
    requires forall i :: 0 <= i < |name| ==> IsIdent(cc, name[i])
    ensures RunLen(cc, name + rest) == |name| + RunLen(cc, rest)
  {
    if name == "" {
      assert name + rest == rest;
    } else {
      RunOfIdents(cc, name[1..], rest);
      assert (name + rest)[1..] == name[1..] + rest;
    }
  }

  /** The name after a `:`, when the name is known to start with a given text. */
  lemma NameFound(cc: CharClass, s: string, text: string, r: nat)
    requires s == ":" + text && |text| > 0 && IsStart(cc, text[0]) && RunLen(cc, text) == r
    ensures NameAt(cc, s) == Some(text[..r])
  {
    assert s[1..] == text;
    assert s[1..1 + r] == s[1..][..r];
  }

  lemma NameOfPlaceholder(cc: CharClass, sql: string, k: nat)
    requires PythonLike(cc) && sql != "" && sql[0] == '?'
    ensures var r := RunLen(cc, sql[1..]);
      NameAt(cc, NamedFrom(sql, k)) == Some(Key(k) + sql[1..][..r])
  {
    hide PythonLike, Key, NamedFrom, NameAt, RunLen, IsStart, IsIdent;
    NamedPlaceholder(sql, k);
    KeyIsIdent(cc, k);
    RunOfNamed(cc, sql[1..], k + 1);
    NameOfKeyed(cc, Key(k), NamedFrom(sql[1..], k + 1));
  }

  lemma NameOfKeyed(cc: CharClass, key: string, rest: string)
    requires key != "" && IsStart(cc, key[0]) && forall i :: 0 <= i < |key| ==> IsIdent(cc, key[i])
    ensures NameAt(cc, ":" + (key + rest)) == Some(key + rest[..RunLen(cc, rest)])
  {
    hide NameAt, RunLen, IsStart, IsIdent;
    RunOfIdents(cc, key, rest);
    NameFound(cc, ":" + (key + rest), key + rest, |key| + RunLen(cc, rest));
    TakeConcat(key, rest, RunLen(cc, rest));
  }

  lemma NamedPlaceholder(sql: string, k: nat)
    requires sql != "" && sql[0] == '?'
    ensures NamedFrom(sql, k) == ":" + (Key(k) + NamedFrom(sql[1..], k + 1))
  {
    hide Key;
    assert ":" + (Key(k) + NamedFrom(sql[1..], k + 1)) == ":" + Key(k) + NamedFrom(sql[1..], k + 1);
  }

  lemma TakeConcat(a: string, b: string, r: nat)
    requires r <= |b|
    ensures (a + b)[..|a| + r] == a + b[..r]
  {
  }

  lemma KeyIsIdent(cc: CharClass, k: nat)
    requires PythonLike(cc)
    ensures Key(k) != "" && IsStart(cc, Key(k)[0])
    ensures forall i :: 0 <= i < |Key(k)| ==> IsIdent(cc, Key(k)[i])
  {
  }

  lemma NameOfText(cc: CharClass, sql: string, k: nat)
    requires PythonLike(cc) && sql != "" && sql[0] != '?'
    ensures NameAt(cc, NamedFrom(sql, k)) == NameAt(cc, sql)
  {
    var s, text := NamedFrom(sql, k), NamedFrom(sql[1..], k);
    assert s == [sql[0]] + text;
    RunOfNamed(cc, sql[1..], k);
    var r := RunLen(cc, sql[1..]);
    if |sql| > 1 {
      assert text[0] == (if sql[1] == '?' then ':' else sql[1]);
      if sql[0] == ':' && IsStart(cc, sql[1]) {
        NameFound(cc, s, text, r);
        assert sql == ":" + sql[1..];
        NameFound(cc, sql, sql[1..], r);
      }
    }
  }

  lemma NamedTail(sql: string, k: nat)
    requires sql != ""
    ensures sql[0] == '?' ==> NamedFrom(sql, k)[1 + |Key(k)|..] == NamedFrom(sql[1..], k + 1)
    ensures sql[0] != '?' ==> NamedFrom(sql, k)[1..] == NamedFrom(sql[1..], k)
  {
    if sql[0] == '?' {
      assert NamedFrom(sql, k) == (":" + Key(k)) + NamedFrom(sql[1..], k + 1);
    }
  }

  /** Scanning never turns a text that starts with no identifier character into one that does. */
  lemma ScanHead<V>(cc: CharClass, s: string, d: map<string, V>)
    requires PythonLike(cc) && RunLen(cc, s) == 0
    ensures var t := Scan(cc, s, d).0; t == "" || !IsIdent(cc, t[0])
  {
  }

  lemma ScanPlaceholder<V>(cc: CharClass, sql: string, k: nat, d: map<string, V>)
    requires PythonLike(cc) && sql != "" && sql[0] == '?' && RunLen(cc, sql[1..]) == 0 && Key(k) in d
    ensures var rest := Scan(cc, NamedFrom(sql[1..], k + 1), d);
      Scan(cc, NamedFrom(sql, k), d) == ("?" + rest.0, [d[Key(k)]] + rest.1)
  {
    hide PythonLike, Key, RunLen;
    NamedTail(sql, k);
    NamedPlaceholder(sql, k);
    NameOfPlaceholder(cc, sql, k);
    hide NamedFrom, NameAt;
    assert Key(k) + sql[1..][..0] == Key(k);
    ScanStep(cc, NamedFrom(sql, k), d);
    hide Scan;
  }

  lemma ScanText<V>(cc: CharClass, sql: string, k: nat, d: map<string, V>)
    requires PythonLike(cc) && sql != "" && sql[0] != '?'
    requires NameAt(cc, sql).Some? ==> NameAt(cc, sql).value !in d
    ensures var rest := Scan(cc, NamedFrom(sql[1..], k), d);
      Scan(cc, NamedFrom(sql, k), d) == ([sql[0]] + rest.0, rest.1)
  {
    hide PythonLike, Key, RunLen;
    NamedTail(sql, k);
    NameOfText(cc, sql, k);
    assert NamedFrom(sql, k) == [sql[0]] + NamedFrom(sql[1..], k);
    hide NamedFrom, NameAt;
    ScanStep(cc, NamedFrom(sql, k), d);
    hide Scan;
  }

  /** On clean text the scanner inverts the numbering from k on. */
  lemma {:induction false} ScanNamed<V>(cc: CharClass, sql: string, k: nat, params: seq<V>)
    requires PythonLike(cc) && 1 <= k && Count(sql) == |params| + 1 - k
    requires Clean(cc, sql, |params|)
    ensures Scan(cc, NamedFrom(sql, k), Dict(params, |params|)) == (sql, params[k - 1..])
  {
    hide PythonLike, CleanAt, NameAt, RunLen, Key;
    var n := |params|;
    var d := Dict(params, n);
    if sql == "" {
      assert params[k - 1..] == [];
    } else {
      CleanStep(cc, sql, n);
      DictEntries(params, n);
      hide Dict, Clean, Scan, NamedFrom;
      if sql[0] == '?' {
        CleanPlaceholder(cc, sql, n);
        ScanPlaceholder(cc, sql, k, d);
        ScanNamed(cc, sql[1..], k + 1, params);
        HeadTail(sql, 0);
        HeadTail(params, k - 1);
      } else {
        CleanText(cc, sql, n);
        ScanText(cc, sql, k, d);
        ScanNamed(cc, sql[1..], k, params);
        HeadTail(sql, 0);
      }
    }
  }

  lemma HeadTail<T>(s: seq<T>, i: nat)
    requires i < |s|
    ensures s[i..] == [s[i]] + s[i + 1..] && s[0..] == s
  {
  }

  lemma CleanPlaceholder(cc: CharClass, sql: string, n: nat)
    requires sql != "" && sql[0] == '?' && CleanAt(cc, sql, n)
    ensures RunLen(cc, sql[1..]) == 0
  {
  }

  lemma CleanText(cc: CharClass, sql: string, n: nat)
    requires sql != "" && CleanAt(cc, sql, n)
    ensures NameAt(cc, sql).Some? ==> !IsKey(NameAt(cc, sql).value, n)
  {
  }

  lemma GivenBackPlaceholder<V>(cc: CharClass, sql: string, k: nat, d: map<string, V>)
    requires PythonLike(cc) && sql != "" && sql[0] == '?'
    requires Scan(cc, NamedFrom(sql, k), d).0 == sql
    ensures RunLen(cc, sql[1..]) == 0 && Scan(cc, NamedFrom(sql[1..], k + 1), d).0 == sql[1..]
  {
    hide PythonLike, Key, NameAt, RunLen, IsIdent, NamedFrom;
    var s, rest, r := NamedFrom(sql, k), NamedFrom(sql[1..], k + 1), RunLen(cc, sql[1..]);
    var key := Key(k) + sql[1..][..r];
    NamedPlaceholder(sql, k);
    NamedTail(sql, k);
    NameOfPlaceholder(cc, sql, k);
    ScanStep(cc, s, d);
    hide Scan;
    assert key in d;
    RunOfNamed(cc, sql[1..], k + 1);
    assert |key| == |Key(k)| + r && |s| == 1 + |Key(k)| + |rest|;
    assert s[1 + |key|..] == s[1 + |Key(k)|..][r..] == rest[r..];
    RunEnds(cc, rest);
    ScanHead(cc, rest[r..], d);
    assert sql[1..] == Scan(cc, rest[r..], d).0;
    RunStartsAt(cc, sql[1..]);
    assert rest[0..] == rest;
  }

  lemma RunStartsAt(cc: CharClass, s: string)
    ensures RunLen(cc, s) == 0 <==> s == "" || !IsIdent(cc, s[0])
  {
  }

  lemma GivenBackText<V>(cc: CharClass, sql: string, k: nat, d: map<string, V>)
    requires PythonLike(cc) && sql != "" && sql[0] != '?'
    requires Scan(cc, NamedFrom(sql, k), d).0 == sql
    ensures NameAt(cc, sql).Some? ==> NameAt(cc, sql).value !in d
    ensures Scan(cc, NamedFrom(sql[1..], k), d).0 == sql[1..]
  {
    hide PythonLike, Key, NameAt, RunLen, IsIdent, NamedFrom;
    NamedText(sql, k);
    NamedTail(sql, k);
    NameOfText(cc, sql, k);
    ScanStep(cc, NamedFrom(sql, k), d);
    hide Scan;
  }

  /** Conversely, the scanner gives back the text only when it is clean. */
  lemma {:induction false} ScannedBackIsClean<V>(cc: CharClass, sql: string, k: nat, params: seq<V>)
    requires PythonLike(cc) && 1 <= k && Count(sql) == |params| + 1 - k
    requires Scan(cc, NamedFrom(sql, k), Dict(params, |params|)).0 == sql
    ensures Clean(cc, sql, |params|)
  {
    hide PythonLike, CleanAt, Scan, NamedFrom, NameAt, RunLen;
    var n := |params|;
    var d := Dict(params, n);
    if sql != "" {
      DictEntries(params, n);
      hide Dict, Clean;
      if sql[0] == '?' {
        GivenBackPlaceholder(cc, sql, k, d);
        ScannedBackIsClean(cc, sql[1..], k + 1, params);
        PlaceholderIsClean(cc, sql, n);
      } else {
        GivenBackText(cc, sql, k, d);
        ScannedBackIsClean(cc, sql[1..], k, params);
        TextIsClean(cc, sql, n);
      }
      CleanStep(cc, sql, n);
    }
  }

  lemma RunEnds(cc: CharClass, s: string)
    ensures RunLen(cc, s[RunLen(cc, s)..]) == 0
  {
  }

  lemma PlaceholderIsClean(cc: CharClass, sql: string, n: nat)
    requires sql != "" && sql[0] == '?' && RunLen(cc, sql[1..]) == 0
    ensures CleanAt(cc, sql, n)
  {
  }

  lemma TextIsClean(cc: CharClass, sql: string, n: nat)
    requires sql != "" && sql[0] != '?' && (NameAt(cc, sql).Some? ==> !IsKey(NameAt(cc, sql).value, n))
    ensures CleanAt(cc, sql, n)
  {
  }

  /** The round trip `?` -> `:pN` -> `?` gives back the same text exactly when the text is clean,
      and then the parameters come back too, in order. */
  lemma RoundTrip<V>(cc: CharClass, sql: string, params: seq<V>)
    requires PythonLike(cc)
    ensures ToNamed(sql, params).ValueError? <==> Count(sql) != |params|
    ensures ToNamed(sql, params).Converted? ==>
      var named := ToNamed(sql, params);
      var back := Scan(cc, named.sql, named.params);
      && (back == (sql, params) <==> Clean(cc, sql, |params|))
      && (back.0 == sql <==> Clean(cc, sql, |params|))
  {
    if Count(sql) == |params| {
      var named := ToNamed(sql, params);
      assert params[0..] == params;
      if Clean(cc, sql, |params|) { ScanNamed(cc, sql, 1, params); }
      if Scan(cc, named.sql, named.params).0 == sql { ScannedBackIsClean(cc, sql, 1, params); }
    }
  }
}
