/** Shared value types, the text order used by every `order by` on ids, and sorting. */
module Base {
  datatype Option<+T> = None | Some(value: T)

  type Byte = x: int | 0 <= x < 256

  /** `m.get(k)` of a JS Map or a table lookup by primary key. */
  function Lookup<K, V>(m: map<K, V>, k: K): Option<V> {
    if k in m then Some(m[k]) else None
  }

  lemma SameLookups<K, V>(a: map<K, V>, b: map<K, V>)
    requires forall k :: Lookup(a, k) == Lookup(b, k)
    ensures a == b
  {
    forall k
      ensures k in a <==> k in b
      ensures k in a ==> a[k] == b[k]
    {
      assert Lookup(a, k) == Lookup(b, k);
    }
  }

  function Max(a: int, b: int): int { if a < b then b else a }

  function Min(a: int, b: int): int { if a < b then a else b }

  function Elems<T(==)>(s: seq<T>): set<T> { set x | x in s }

  ghost predicate NoDup<T>(s: seq<T>) {
    forall i, j :: 0 <= i < j < |s| ==> s[i] != s[j]
  }

  lemma ElemsAppend<T>(s: seq<T>, t: seq<T>)
    ensures Elems(s + t) == Elems(s) + Elems(t)
  {
    forall x
      ensures x in Elems(s + t) <==> x in Elems(s) + Elems(t)
    {
    }
  }

  /** One step of a loop over a list. */
  lemma ElemsStep<T>(s: seq<T>, i: nat)
    requires i < |s|
    ensures Elems(s[..i + 1]) == Elems(s[..i]) + {s[i]} && s[i] in Elems(s)
    ensures NoDup(s) ==> s[i] !in Elems(s[..i])
  {
    assert s[..i + 1] == s[..i] + [s[i]];
  }

  lemma ElemsAll<T>(s: seq<T>)
    ensures Elems(s[..|s|]) == Elems(s) && Elems(s[..0]) == {}
  {
    assert s[..|s|] == s;
  }

  lemma SliceOfSlice<T>(s: seq<T>, a: nat, b: nat, i: nat, j: nat)
    requires a <= b <= |s| && i <= j <= b - a
    ensures s[a..b][i..j] == s[a + i..a + j]
  {
    assert |s[a..b][i..j]| == |s[a + i..a + j]|;
    forall k | 0 <= k < j - i
      ensures s[a..b][i..j][k] == s[a + i..a + j][k]
    {
      assert s[a..b][i + k] == s[a + (i + k)];
    }
  }

  /** `e` stands in `s` at `pos`. */
  ghost predicate At<T>(s: seq<T>, pos: nat, e: seq<T>) {
    pos + |e| <= |s| && s[pos..pos + |e|] == e
  }

  lemma AtParts<T>(s: seq<T>, pos: nat, a: seq<T>, b: seq<T>)
    requires At(s, pos, a + b)
    ensures At(s, pos, a) && At(s, pos + |a|, b)
  {
    SliceOfSlice(s, pos, pos + |a + b|, 0, |a|);
    SliceOfSlice(s, pos, pos + |a + b|, |a|, |a + b|);
    assert (a + b)[0..|a|] == a && (a + b)[|a|..|a + b|] == b;
  }

  /** The first element of what stands at `pos`. */
  lemma AtHead<T>(s: seq<T>, pos: nat, x: T, rest: seq<T>)
    requires At(s, pos, [x] + rest)
    ensures pos < |s| && s[pos] == x && At(s, pos + 1, rest)
  {
    AtParts(s, pos, [x], rest);
    assert s[pos..pos + 1][0] == s[pos];
  }

  lemma TakeAppend<T>(s: seq<T>, x: T)
    ensures (s + [x])[..|s + [x]| - 1] == s
    ensures (s + [x])[|s + [x]| - 1] == x
  {
  }
}

/** Decimal numerals. */
module Decimal {

  predicate IsDigit(c: char) { '0' <= c <= '9' }

  function Digit(n: nat): char
    requires n < 10
  {
    '0' + n as char
  }

  function Digits(n: nat): string {
    if n < 10 then [Digit(n)] else Digits(n / 10) + [Digit(n % 10)]
  }

  function IntText(n: int): string {
    if n < 0 then "-" + Digits(-n) else Digits(n)
  }

  predicate AllDigits(s: string) {
    forall c | c in s :: IsDigit(c)
  }

  function Value(s: string): nat
    requires AllDigits(s)
  {
    if s == "" then 0
    else
      assert forall c | c in s[..|s| - 1] :: c in s;
      assert s[|s| - 1] in s;
      10 * Value(s[..|s| - 1]) + (s[|s| - 1] as int - '0' as int)
  }

  lemma {:induction false} DigitsRoundTrip(n: nat)
    ensures AllDigits(Digits(n)) && Digits(n) != "" && Value(Digits(n)) == n
  {
    if n < 10 {
      assert Digits(n)[..0] == "";
    } else {
      DigitsRoundTrip(n / 10);
      var d := Digits(n);
      assert d[..|d| - 1] == Digits(n / 10);
      assert forall c | c in d :: c in Digits(n / 10) || c == Digit(n % 10);
    }
  }
}

/** Little-endian numbers of a fixed number of bytes. */
module LittleEndian {
  import opened Base

  function Pow256(w: nat): (p: nat)
    ensures p > 0
  {
    if w == 0 then 1 else 256 * Pow256(w - 1)
  }

  function Encode(n: nat, w: nat): (b: seq<Byte>)
    ensures |b| == w
  {
    if w == 0 then [] else [n % 256] + Encode(n / 256, w - 1)
  }

  function Decode(b: seq<Byte>): nat {
    if b == [] then 0 else b[0] + 256 * Decode(b[1..])
  }

  /** Each byte is worth 256 times the one before it. */
  lemma {:induction false} ByteAt(n: nat, w: nat, i: nat)
    requires i < w
    ensures Encode(n, w)[i] == n / Pow256(i) % 256
  {
    if i > 0 {
      ByteAt(n / 256, w - 1, i - 1);
      DivDiv(n, Pow256(i - 1));
    }
  }

  lemma DivDiv(n: nat, p: nat)
    requires p > 0
    ensures n / 256 / p == n / (256 * p)
  {
    var q := n / 256 / p;
    assert q * p <= n / 256 < (q + 1) * p;
    assert 256 * (n / 256) <= n < 256 * (n / 256) + 256;
    assert q * (256 * p) == 256 * (q * p) && (q + 1) * (256 * p) == 256 * ((q + 1) * p);
    assert q * (256 * p) <= n < (q + 1) * (256 * p);
    Quotient(n, 256 * p, q);
  }

  lemma Quotient(n: nat, d: nat, q: nat)
    requires d > 0 && q * d <= n < (q + 1) * d
    ensures n / d == q
  {
    var r := n / d;
    assert r * d <= n < (r + 1) * d;
    Grows(r + 1, q, d);
    Grows(q + 1, r, d);
  }

  lemma Grows(a: nat, b: nat, d: nat)
    ensures a <= b ==> a * d <= b * d
  {
  }

  lemma {:induction false} RoundTrip(n: nat, w: nat)
    requires n < Pow256(w)
    ensures Decode(Encode(n, w)) == n
  {
    if w > 0 {
      assert n / 256 < Pow256(w - 1);
      RoundTrip(n / 256, w - 1);
      assert Encode(n, w)[1..] == Encode(n / 256, w - 1);
    }
  }
}

/** Strict total orders, the order on text, and the unique ascending enumeration of a finite set. */
module Sorting {
  import opened Base

  ghost predicate StrictTotal<T(!new)>(less: (T, T) -> bool) {
    && (forall x :: !less(x, x))
    && (forall x, y :: less(x, y) || less(y, x) || x == y)
    && (forall x, y, z :: less(x, y) && less(y, z) ==> less(x, z))
  }

  ghost predicate Ascending<T>(less: (T, T) -> bool, s: seq<T>) {
    forall i, j :: 0 <= i < j < |s| ==> less(s[i], s[j])
  }

  /** `s` lists exactly `xs`, each once, in the order `less`: what `order by` and `sort` both return. */
  ghost predicate Lists<T(!new)>(less: (T, T) -> bool, s: seq<T>, xs: set<T>) {
    Ascending(less, s) && forall x :: x in s <==> x in xs
  }

  /** Lexicographic order on code units. */
  predicate TextLess(a: string, b: string) {
    if b == "" then false
    else if a == "" then true
    else if a[0] != b[0] then a[0] < b[0]
    else TextLess(a[1..], b[1..])
  }

  lemma {:induction false} TextIrreflexive(a: string)
    ensures !TextLess(a, a)
  {
    if a != "" { TextIrreflexive(a[1..]); }
  }

  lemma {:induction false} TextTotal(a: string, b: string)
    ensures TextLess(a, b) || TextLess(b, a) || a == b
  {
    if a == "" || b == "" || a[0] != b[0] {
    } else {
      var x, y := a[1..], b[1..];
      TextTotal(x, y);
      assert a == [a[0]] + x;
      assert b == [a[0]] + y;
    }
  }

  lemma {:induction false} TextTransitive(a: string, b: string, c: string)
    requires TextLess(a, b) && TextLess(b, c)
    ensures TextLess(a, c)
  {
    if a != "" && a[0] == b[0] && b[0] == c[0] {
      TextTransitive(a[1..], b[1..], c[1..]);
    }
  }

  lemma TextOrder()
    ensures StrictTotal(TextLess)
  {
    forall x ensures !TextLess(x, x) { TextIrreflexive(x); }
    forall x, y ensures TextLess(x, y) || TextLess(y, x) || x == y { TextTotal(x, y); }
    forall x, y, z | TextLess(x, y) && TextLess(y, z) ensures TextLess(x, z) { TextTransitive(x, y, z); }
  }

  /** `a` stands before `b` in a dictionary: a proper prefix of it, or smaller at the first difference. */
  ghost predicate Precedes(a: string, b: string) {
    exists i :: 0 <= i < |b| && i <= |a| && a[..i] == b[..i] && (i == |a| || a[i] < b[i])
  }

  lemma FirstOf(a: string, b: string, i: nat)
    requires i <= |a| && i <= |b| && a[..i] == b[..i]
    ensures i == 0 || a[0] == b[0]
  {
    if i > 0 {
      assert a[..i][0] == b[..i][0];
    }
  }

  lemma {:induction false} TextLessIsDictionary(a: string, b: string)
    ensures TextLess(a, b) <==> Precedes(a, b)
  {
    if a == "" || b == "" {
      assert b != "" ==> a[..0] == b[..0];
    } else if a[0] != b[0] {
      assert a[..0] == b[..0];
      forall i | 0 <= i < |b| && i <= |a| && a[..i] == b[..i]
        ensures i == 0
      {
        FirstOf(a, b, i);
      }
    } else {
      TextLessIsDictionary(a[1..], b[1..]);
      if i :| 0 <= i < |b[1..]| && i <= |a[1..]| && a[1..][..i] == b[1..][..i] && (i == |a[1..]| || a[1..][i] < b[1..][i]) {
        assert a[..i + 1] == [a[0]] + a[1..][..i] && b[..i + 1] == [b[0]] + b[1..][..i];
        assert a[..i + 1] == b[..i + 1];
      }
      if i :| 0 <= i < |b| && i <= |a| && a[..i] == b[..i] && (i == |a| || a[i] < b[i]) {
        assert i > 0;
        assert a[1..][..i - 1] == a[..i][1..] && b[1..][..i - 1] == b[..i][1..];
      }
    }
  }

  lemma {:induction false} LeastExists<T(!new)>(less: (T, T) -> bool, xs: set<T>)
    requires StrictTotal(less) && xs != {}
    ensures exists x :: x in xs && forall y | y in xs :: y == x || less(x, y)
    decreases |xs|
  {
    var a :| a in xs;
    if xs != {a} {
      var rest := xs - {a};
      assert xs == rest + {a};
      LeastExists(less, rest);
      var b :| b in rest && forall y | y in rest :: y == b || less(b, y);
      var x := if less(a, b) then a else b;
      forall y | y in xs
        ensures y == x || less(x, y)
      {
        assert y == a || y in rest;
        assert y in rest ==> y == b || less(b, y);
      }
    } else {
      assert forall y | y in xs :: y == a;
    }
  }

  /** The ascending list of a finite set: `order by`, and `[...xs].sort(less)` of distinct values. */
  function OrderBy<T(!new, ==)>(less: (T, T) -> bool, xs: set<T>): (s: seq<T>)
    requires StrictTotal(less)
    ensures Lists(less, s, xs)
    decreases |xs|
  {
    if xs == {} then []
    else
      LeastExists(less, xs);
      var x :| x in xs && forall y | y in xs :: y == x || less(x, y);
      var rest := OrderBy(less, xs - {x});
      assert forall y :: y in [x] + rest <==> y == x || y in rest;
      [x] + rest
  }

  /** Any sort and any `order by` of the same distinct values agree. */
  lemma {:induction false} ListsUnique<T(!new)>(less: (T, T) -> bool, s: seq<T>, t: seq<T>, xs: set<T>)
    requires StrictTotal(less) && Lists(less, s, xs) && Lists(less, t, xs)
    ensures s == t
    decreases |s|
  {
    ListsEmpty(less, s, xs);
    ListsEmpty(less, t, xs);
    if s != [] {
      assert s[0] in t;
      assert t[0] in s;
      assert s[0] == t[0];
      ListsTail(less, s, xs);
      ListsTail(less, t, xs);
      ListsUnique(less, s[1..], t[1..], xs - {s[0]});
      assert s == [s[0]] + s[1..] && t == [t[0]] + t[1..];
    }
  }

  lemma ListsElems<T(!new)>(less: (T, T) -> bool, s: seq<T>, xs: set<T>)
    requires Lists(less, s, xs)
    ensures Elems(s) == xs
  {
  }

  lemma ListsEmpty<T(!new)>(less: (T, T) -> bool, s: seq<T>, xs: set<T>)
    requires Lists(less, s, xs)
    ensures s == [] <==> xs == {}
  {
    if s != [] {
      assert s[0] in xs;
    }
  }

  lemma ListsTail<T(!new)>(less: (T, T) -> bool, s: seq<T>, xs: set<T>)
    requires StrictTotal(less) && Lists(less, s, xs) && s != []
    ensures Lists(less, s[1..], xs - {s[0]})
  {
    var t := s[1..];
    forall y ensures y in t <==> y in xs - {s[0]} {
      if y in t {
        var i :| 0 <= i < |t| && t[i] == y;
        assert s[i + 1] == y;
      }
      if y in xs - {s[0]} {
        var i :| 0 <= i < |s| && s[i] == y;
        assert t[i - 1] == y;
      }
    }
  }

  lemma ListsNoDup<T(!new)>(less: (T, T) -> bool, s: seq<T>, xs: set<T>)
    requires StrictTotal(less) && Lists(less, s, xs)
    ensures NoDup(s)
  {
  }
}
