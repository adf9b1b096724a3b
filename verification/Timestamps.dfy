/** Timestamps as text: the rendering of UTC instants and their order as strings. */
module Timestamps {
  import opened Digits

  // ---- string order ----

  /** Python's and SQL's `<` on text: lexicographic by code point. */
  predicate StrLess(a: string, b: string) {
    if b == "" then false
    else if a == "" then true
    else a[0] < b[0] || (a[0] == b[0] && StrLess(a[1..], b[1..]))
  }

  lemma {:induction false} StrLessIrreflexive(a: string)
    ensures !StrLess(a, a)
  {
    if a != "" { StrLessIrreflexive(a[1..]); }
  }

  lemma {:induction false} StrLessTransitive(a: string, b: string, c: string)
    requires StrLess(a, b) && StrLess(b, c)
    ensures StrLess(a, c)
  {
    if a != "" && a[0] == b[0] == c[0] { StrLessTransitive(a[1..], b[1..], c[1..]); }
  }

  lemma {:induction false} StrLessTotal(a: string, b: string)
    ensures StrLess(a, b) || a == b || StrLess(b, a)
    ensures !(StrLess(a, b) && StrLess(b, a))
  {
    if a != "" && b != "" {
      StrLessTotal(a[1..], b[1..]);
      if a[0] == b[0] && a[1..] == b[1..] {
        assert a == [a[0]] + a[1..] && b == [b[0]] + b[1..];
      }
    }
  }

  /** Negated transitivity: not-less composes. */
  lemma NotLessTransitive(a: string, b: string, c: string)
    requires !StrLess(b, a) && !StrLess(c, b)
    ensures !StrLess(c, a)
  {
    StrLessTotal(a, b);
    StrLessTotal(b, c);
    StrLessTotal(a, c);
    if StrLess(c, a) {
      if StrLess(a, b) { StrLessTransitive(c, a, b); }
    }
  }

  /** After parts of equal length, the tails decide only if the parts are equal. */
  lemma {:induction false} LessAfterPrefix(u: string, v: string, x: string, y: string)
    requires |u| == |v|
    ensures StrLess(u + x, v + y) <==> StrLess(u, v) || (u == v && StrLess(x, y))
  {
    if u == "" {
      assert u + x == x && v + y == y;
    } else {
      LessAfterPrefix(u[1..], v[1..], x, y);
      assert (u + x)[1..] == u[1..] + x && (v + y)[1..] == v[1..] + y;
      assert u == [u[0]] + u[1..] && v == [v[0]] + v[1..];
    }
  }

  // ---- instants ----

  /** A UTC datetime. */
  datatype Instant = Instant(year: nat, month: nat, day: nat, hour: nat, minute: nat, second: nat, micro: nat)

  predicate IsInstant(t: Instant) {
    && 1 <= t.year < 10000 && 1 <= t.month <= 12 && 1 <= t.day <= 31
    && t.hour < 24 && t.minute < 60 && t.second < 60 && t.micro < 1000000
  }

  function Fields(t: Instant): seq<nat> {
    [t.year, t.month, t.day, t.hour, t.minute, t.second]
  }

  predicate SameSecond(a: Instant, b: Instant) { Fields(a) == Fields(b) }

  /** Lexicographic order of equally long sequences of numbers. */
  predicate FieldsLess(v: seq<nat>, w: seq<nat>)
    requires |v| == |w|
  {
    v != [] && (v[0] < w[0] || (v[0] == w[0] && FieldsLess(v[1..], w[1..])))
  }

  /** The order of instants. */
  predicate Before(a: Instant, b: Instant) {
    FieldsLess(Fields(a), Fields(b)) || (SameSecond(a, b) && a.micro < b.micro)
  }

  function Pow10(k: nat): nat { if k == 0 then 1 else 10 * Pow10(k - 1) }

  /** n in exactly k digits. */
  function Pad(n: nat, k: nat): (s: string)
    ensures |s| == k
  {
    if k == 0 then "" else Pad(n / 10, k - 1) + [Digit(n % 10)]
  }

  const WIDTHS: seq<nat> := [4, 2, 2, 2, 2, 2]
  const SEPARATORS: seq<string> := ["-", "-", "T", ":", ":", ""]

  function RenderFields(v: seq<nat>, widths: seq<nat>, seps: seq<string>): string
    requires |v| == |widths| == |seps|
  {
    if v == [] then "" else Pad(v[0], widths[0]) + seps[0] + RenderFields(v[1..], widths[1..], seps[1..])
  }

  /** Fraction and zone: isoformat omits the fraction when it is zero. */
  function Suffix(micro: nat): string {
    if micro == 0 then "Z" else "." + Pad(micro, 6) + "Z"
  }

  /** now.isoformat().replace("+00:00", "Z") */
  function Render(t: Instant): string {
    RenderFields(Fields(t), WIDTHS, SEPARATORS) + Suffix(t.micro)
  }

  /** Exactly k digits that write n. */
  predicate Writes(s: string, n: nat, k: nat) {
    |s| == k && (forall i :: 0 <= i < k ==> '0' <= s[i] <= '9') && ValueOf(s) == n
  }

  lemma WritesOneMore(s: string, n: nat, k: nat)
    requires Writes(s, n / 10, k)
    ensures Writes(s + [Digit(n % 10)], n, k + 1)
  {
    var t := s + [Digit(n % 10)];
    assert t[..k] == s && t[k] == Digit(n % 10);
  }

  lemma {:induction false} PadWrites(n: nat, k: nat)
    requires n < Pow10(k)
    ensures Writes(Pad(n, k), n, k)
  {
    if k > 0 {
      PadWrites(n / 10, k - 1);
      WritesOneMore(Pad(n / 10, k - 1), n, k - 1);
      hide Writes, Digit;
    }
  }

  /** s writes the numbers in the given widths, each followed by its separator. */
  predicate Lays(s: string, v: seq<nat>, widths: seq<nat>, seps: seq<string>)
    requires |v| == |widths| == |seps|
  {
    if v == [] then s == ""
    else
      var w, n := widths[0], widths[0] + |seps[0]|;
      |s| >= n && Writes(s[..w], v[0], w) && s[w..n] == seps[0] && Lays(s[n..], v[1..], widths[1..], seps[1..])
  }

  lemma {:induction false} RenderFieldsLays(v: seq<nat>, widths: seq<nat>, seps: seq<string>)
    requires |v| == |widths| == |seps| && forall i :: 0 <= i < |v| ==> v[i] < Pow10(widths[i])
    ensures Lays(RenderFields(v, widths, seps), v, widths, seps)
  {
    if v != [] {
      var w, n, s := widths[0], widths[0] + |seps[0]|, RenderFields(v, widths, seps);
      RenderFieldsLays(v[1..], widths[1..], seps[1..]);
      PadWrites(v[0], w);
      hide Pad, Writes, Pow10;
      var rest := RenderFields(v[1..], widths[1..], seps[1..]);
      assert s == Pad(v[0], w) + seps[0] + rest;
      assert s[..w] == Pad(v[0], w) && s[w..n] == seps[0] && s[n..] == rest;
    }
  }

  /** The text of an instant: YYYY-MM-DDTHH:MM:SSZ, with .ffffff before the Z unless it is zero. */
  lemma RenderText(t: Instant) returns (seconds: string)
    requires IsInstant(t)
    ensures Lays(seconds, [t.year, t.month, t.day, t.hour, t.minute, t.second], [4, 2, 2, 2, 2, 2], ["-", "-", "T", ":", ":", ""])
    ensures t.micro == 0 ==> Render(t) == seconds + "Z"
    ensures t.micro != 0 ==> exists fraction :: Writes(fraction, t.micro, 6) && Render(t) == seconds + ("." + fraction + "Z")
  {
    InstantFieldsFit(t);
    seconds := RenderFields(Fields(t), WIDTHS, SEPARATORS);
    RenderFieldsLays(Fields(t), WIDTHS, SEPARATORS);
    assert Pow10(6) == 1000000 by { assert Pow10(3) == 1000; }
    PadWrites(t.micro, 6);
    hide Pad, Writes, RenderFields, Pow10, Lays;
    if t.micro != 0 { assert Writes(Pad(t.micro, 6), t.micro, 6); }
  }

  lemma {:induction false} PadOrder(m: nat, n: nat, k: nat)
    requires m < Pow10(k) && n < Pow10(k)
    ensures StrLess(Pad(m, k), Pad(n, k)) <==> m < n
    ensures Pad(m, k) == Pad(n, k) <==> m == n
  {
    if k > 0 {
      PadOrder(m / 10, n / 10, k - 1);
      LessAfterPrefix(Pad(m / 10, k - 1), Pad(n / 10, k - 1), [Digit(m % 10)], [Digit(n % 10)]);
      var s, t := Pad(m, k), Pad(n, k);
      assert s[..k - 1] == Pad(m / 10, k - 1) && t[..k - 1] == Pad(n / 10, k - 1);
      assert s[k - 1] == Digit(m % 10) && t[k - 1] == Digit(n % 10);
      assert [Digit(m % 10)][1..] == [] && [Digit(n % 10)][1..] == [];
    }
  }

  lemma {:induction false} RenderFieldsOrder(v: seq<nat>, w: seq<nat>, widths: seq<nat>, seps: seq<string>)
    requires |v| == |w| == |widths| == |seps|
    requires forall i :: 0 <= i < |v| ==> v[i] < Pow10(widths[i]) && w[i] < Pow10(widths[i])
    ensures |RenderFields(v, widths, seps)| == |RenderFields(w, widths, seps)|
    ensures StrLess(RenderFields(v, widths, seps), RenderFields(w, widths, seps)) <==> FieldsLess(v, w)
    ensures RenderFields(v, widths, seps) == RenderFields(w, widths, seps) <==> v == w
  {
    hide StrLess, Pad;
    if v != [] {
      var a, b := RenderFields(v[1..], widths[1..], seps[1..]), RenderFields(w[1..], widths[1..], seps[1..]);
      RenderFieldsOrder(v[1..], w[1..], widths[1..], seps[1..]);
      PadOrder(v[0], w[0], widths[0]);
      ThreePartOrder(Pad(v[0], widths[0]), Pad(w[0], widths[0]), seps[0], a, b);
      assert v == [v[0]] + v[1..] && w == [w[0]] + w[1..];
    } else {
      StrLessIrreflexive("");
    }
  }

  lemma ThreePartOrder(p: string, q: string, sep: string, a: string, b: string)
    requires |p| == |q| && |a| == |b|
    ensures StrLess(p + sep + a, q + sep + b) <==> StrLess(p, q) || (p == q && StrLess(a, b))
    ensures p + sep + a == q + sep + b <==> p == q && a == b
  {
    hide StrLess;
    assert p + sep + a == p + (sep + a) && q + sep + b == q + (sep + b);
    LessAfterPrefix(p, q, sep + a, sep + b);
    LessAfterPrefix(sep, sep, a, b);
    StrLessIrreflexive(sep);
    assert (p + sep + a)[..|p|] == p && (q + sep + b)[..|q|] == q;
    assert (p + sep + a)[|p| + |sep|..] == a && (q + sep + b)[|q| + |sep|..] == b;
  }

  /** Within one second: digits decide, except that a zero fraction sorts after every other. */
  lemma SuffixOrder(m: nat, n: nat)
    requires m < 1000000 && n < 1000000
    ensures StrLess(Suffix(m), Suffix(n)) <==> (if m == 0 then false else if n == 0 then true else m < n)
  {
    assert Pow10(6) == 1000000 by { assert Pow10(3) == 1000; }
    PadOrder(m, n, 6);
    if m != 0 && n != 0 {
      LessAfterPrefix(".", ".", Pad(m, 6) + "Z", Pad(n, 6) + "Z");
      LessAfterPrefix(Pad(m, 6), Pad(n, 6), "Z", "Z");
      assert "." + Pad(m, 6) + "Z" == "." + (Pad(m, 6) + "Z");
      assert "." + Pad(n, 6) + "Z" == "." + (Pad(n, 6) + "Z");
      StrLessIrreflexive(".");
      StrLessIrreflexive("Z");
    } else if m == 0 && n == 0 {
      StrLessIrreflexive("Z");
    } else {
      var other := if m == 0 then n else m;
      assert Suffix(other)[0] == '.';
    }
  }

  lemma InstantFieldsFit(t: Instant)
    requires IsInstant(t)
    ensures forall i :: 0 <= i < 6 ==> Fields(t)[i] < Pow10(WIDTHS[i])
  {
    assert Pow10(2) == 100 && Pow10(4) == 10000;
  }

  /** Order as strings, for all instants: seconds first, then the fractions with the exception. */
  lemma RenderOrder(a: Instant, b: Instant)
    requires IsInstant(a) && IsInstant(b)
    ensures StrLess(Render(a), Render(b)) <==>
      FieldsLess(Fields(a), Fields(b)) || (SameSecond(a, b) && StrLess(Suffix(a.micro), Suffix(b.micro)))
  {
    InstantFieldsFit(a);
    InstantFieldsFit(b);
    RenderFieldsOrder(Fields(a), Fields(b), WIDTHS, SEPARATORS);
    LessAfterPrefix(RenderFields(Fields(a), WIDTHS, SEPARATORS), RenderFields(Fields(b), WIDTHS, SEPARATORS),
                    Suffix(a.micro), Suffix(b.micro));
  }

  lemma {:induction false} FieldsLessIrreflexive(v: seq<nat>)
    ensures !FieldsLess(v, v)
  {
    if v != [] { FieldsLessIrreflexive(v[1..]); }
  }

  /** Comparing rendered timestamps agrees with comparing instants except exactly when both fall in
      the same second and exactly one has zero microseconds. */
  lemma StringOrderIsTimeOrder(a: Instant, b: Instant)
    requires IsInstant(a) && IsInstant(b)
    ensures (StrLess(Render(a), Render(b)) <==> Before(a, b))
       <==> !(SameSecond(a, b) && (a.micro == 0) != (b.micro == 0))
  {
    hide StrLess, Render;
    RenderOrder(a, b);
    SuffixOrder(a.micro, b.micro);
    if SameSecond(a, b) { FieldsLessIrreflexive(Fields(a)); }
  }
}
