/** A structured-clone writer for every form the decoder reads, what each form means said independently of the decoder, and the
    decoders as the writer's inverse. */
module CloneWriter {
  import opened Base
  import opened Source
  import opened Varints
  import opened StructuredClone
  import Decimal

  // ---- written forms ----

  datatype TextForm = OneByteText | WideText | Utf8Text

  /** The platform's text encoders. */
  datatype Encoders = Encoders(utf8: string -> Bytes, utf16: string -> Bytes)

  /** How a value may be written: numbers, booleans and text also as objects that wrap them; an entry of a container is a key and a value,
      in a set a value; anything may have padding before it. */
  datatype Wire =
    | WUndefined
    | WNull
    | WBool(b: bool, boxed: bool)
    | WInt(n: int)
    | WUint(m: nat)
    | WDouble(bits: Bytes, boxed: bool)
    | WDate(bits: Bytes)
    | WText(form: TextForm, s: string)
    | WBoxed(inner: Wire)
    | WBuffer(bytes: Bytes)
    | WContainer(kind: Kind, length: nat, items: seq<Wire>, entries: seq<Entry>)
    | WPadded(inner: Wire)

  /** What one entry is written as: its values in a row. */
  datatype Entry = Entry(values: seq<Wire>)

  function ZigzagOf(n: int): nat {
    if n >= 0 then 2 * n else -2 * n - 1
  }

  predicate OneByte(s: string) {
    forall c | c in s :: c < 256 as char
  }

  function CharBytes(s: string): Bytes
    requires OneByte(s)
  {
    seq(|s|, i requires 0 <= i < |s| => assert s[i] in s; CharByte(s[i]))
  }

  function CharByte(c: char): Byte
    requires c < 256 as char
  {
    c as int
  }

  function TextTag(form: TextForm): Byte {
    match form
    case OneByteText => 0x22
    case WideText => 0x63
    case Utf8Text => 0x53
  }

  function TextBytes(e: Encoders, form: TextForm, s: string): Bytes
    requires form == OneByteText ==> OneByte(s)
  {
    match form
    case OneByteText => CharBytes(s)
    case WideText => e.utf16(s)
    case Utf8Text => e.utf8(s)
  }

  function OpenTag(k: Kind): Byte {
    match k
    case ObjectKind => 0x6f
    case DenseKind => 0x41
    case SparseKind => 0x61
    case MapKind => 0x3b
    case SetKind => 0x27
  }

  function CloseTag(k: Kind): Byte {
    match k
    case ObjectKind => 0x7b
    case DenseKind => 0x24
    case SparseKind => 0x40
    case MapKind => 0x3a
    case SetKind => 0x2c
  }

  predicate IsArray(k: Kind) {
    k == DenseKind || k == SparseKind
  }

  function EntryWidth(k: Kind): nat {
    if k == SetKind then 1 else 2
  }

  /** The lists of a container: its items, then its entries. */
  function ListOf(w: Wire, j: nat): seq<Wire>
    requires w.WContainer? && j <= |w.entries|
  {
    if j == 0 then w.items else w.entries[j - 1].values
  }

  /** What the format can carry: numbers within their widths, text that its encoder and the decoder agree on, and lists of the
      announced lengths. */
  ghost predicate Writable(c: Codecs, e: Encoders, w: Wire)
    decreases w
  {
    match w
    case WInt(n) => ZigzagOf(n) < WORD
    case WUint(m) => m < WORD
    case WDouble(bits, _) => |bits| == 8
    case WDate(bits) => |bits| == 8
    case WText(form, s) => WritableText(c, e, form, s)
    case WBuffer(bytes) => |bytes| < WORD
    case WBoxed(inner) => Writable(c, e, inner)
    case WPadded(inner) => Writable(c, e, inner)
    case WContainer(k, length, items, entries) =>
      && length < WORD && |entries| < WORD && (!IsArray(k) ==> length == 0) && |items| == (if k == DenseKind then length else 0)
      && (forall i :: 0 <= i < |items| ==> Writable(c, e, items[i]))
      && (forall i :: 0 <= i < |entries| ==> |entries[i].values| == EntryWidth(k))
      && (forall i, j :: 0 <= i < |entries| && 0 <= j < |entries[i].values| ==> Writable(c, e, entries[i].values[j]))
    case _ => true
  }

  predicate WritableText(c: Codecs, e: Encoders, form: TextForm, s: string) {
    && (form == OneByteText ==> OneByte(s)) && |TextBytes(e, form, s)| < WORD
    && (form == WideText ==> c.utf16(e.utf16(s)) == s)
    && (form == Utf8Text ==> c.utf8(e.utf8(s)) == s)
  }

  ghost function Written(c: Codecs, e: Encoders, w: Wire): Bytes
    requires Writable(c, e, w)
    decreases w, 2, 0
  {
    match w
    case WUndefined => [0x5f]
    case WNull => [0x30]
    case WBool(b, boxed) => [if boxed then (if b then 0x79 else 0x78) else if b then 0x54 else 0x46]
    case WInt(n) => [0x49] + Encode(ZigzagOf(n))
    case WUint(m) => [0x55] + Encode(m)
    case WDouble(bits, boxed) => [if boxed then 0x6e else 0x4e] + bits
    case WDate(bits) => [0x44] + bits
    case WText(form, s) => [TextTag(form)] + (Encode(|TextBytes(e, form, s)|) + TextBytes(e, form, s))
    case WBuffer(bytes) => [0x42] + (Encode(|bytes|) + bytes)
    case WBoxed(inner) => [0x73] + Written(c, e, inner)
    case WPadded(inner) => [0] + Written(c, e, inner)
    case WContainer(k, length, _, _) =>
      [OpenTag(k)] + (Announced(k, length) + (WrittenList(c, e, w, 0, 0) + (WrittenEntries(c, e, w, 1) + ([CloseTag(k)] + Counts(w)))))
  }

  function Announced(k: Kind, length: nat): Bytes {
    if IsArray(k) then Encode(length) else []
  }

  /** What stands after the end tag; readers skip it. */
  function Counts(w: Wire): Bytes
    requires w.WContainer?
  {
    Encode(|w.entries|) + (if IsArray(w.kind) then Encode(w.length) else [])
  }

  /** The `j`-th list from its `i`-th value on. */
  ghost function WrittenList(c: Codecs, e: Encoders, w: Wire, j: nat, i: nat): Bytes
    requires Writable(c, e, w) && w.WContainer? && j <= |w.entries| && i <= |ListOf(w, j)|
    decreases w, 0, |ListOf(w, j)| - i
  {
    if i == |ListOf(w, j)| then [] else Written(c, e, ListOf(w, j)[i]) + WrittenList(c, e, w, j, i + 1)
  }

  /** The entries from the `j`-th on, counted from 1. */
  ghost function WrittenEntries(c: Codecs, e: Encoders, w: Wire, j: nat): Bytes
    requires Writable(c, e, w) && w.WContainer? && 1 <= j <= |w.entries| + 1
    decreases w, 1, |w.entries| + 1 - j
  {
    if j > |w.entries| then [] else WrittenList(c, e, w, j, 0) + WrittenEntries(c, e, w, j + 1)
  }

  // ---- what a form means ----

  ghost function Meaning(c: Codecs, e: Encoders, w: Wire): Value
    requires Writable(c, e, w)
    decreases w, 2, 0
  {
    match w
    case WUndefined => Undefined
    case WNull => Null
    case WBool(b, _) => Bool(b)
    case WInt(n) => Num(n)
    case WUint(m) => Num(m)
    case WDouble(bits, _) => if c.integral(bits).Some? then Num(c.integral(bits).value) else Double(bits)
    case WDate(bits) => Date(bits)
    case WText(_, s) => Str(s)
    case WBuffer(bytes) => Buffer(bytes)
    case WBoxed(inner) => Meaning(c, e, inner)
    case WPadded(inner) => Meaning(c, e, inner)
    case WContainer(k, length, _, _) => ContainerMeaning(c, k, length, Meanings(c, e, w, 0, 0), EntryMeanings(c, e, w, 1))
  }

  ghost function Meanings(c: Codecs, e: Encoders, w: Wire, j: nat, i: nat): (r: seq<Value>)
    requires Writable(c, e, w) && w.WContainer? && j <= |w.entries| && i <= |ListOf(w, j)|
    ensures |r| == |ListOf(w, j)| - i
    decreases w, 0, |ListOf(w, j)| - i
  {
    if i == |ListOf(w, j)| then [] else [Meaning(c, e, ListOf(w, j)[i])] + Meanings(c, e, w, j, i + 1)
  }

  ghost function EntryMeanings(c: Codecs, e: Encoders, w: Wire, j: nat): (r: seq<seq<Value>>)
    requires Writable(c, e, w) && w.WContainer? && 1 <= j <= |w.entries| + 1
    ensures |r| == |w.entries| + 1 - j && OfWidth(r, EntryWidth(w.kind))
    decreases w, 1, |w.entries| + 1 - j
  {
    if j > |w.entries| then [] else [Meanings(c, e, w, j, 0)] + EntryMeanings(c, e, w, j + 1)
  }

  predicate OfWidth(entries: seq<seq<Value>>, n: nat) {
    forall i :: 0 <= i < |entries| ==> |entries[i]| == n
  }

  /** An object has its text and number keys; a map has every key as text; a set lists its values; an array has its items, with the indexed
      entries in place and holes where nothing is, and its other named entries as properties. */
  ghost function ContainerMeaning(c: Codecs, k: Kind, length: nat, items: seq<Value>, entries: seq<seq<Value>>): Value
    requires OfWidth(entries, EntryWidth(k))
  {
    match k
    case ObjectKind => Object(Settled(Named(c, entries)))
    case MapKind => Object(Settled(Coerced(c, entries)))
    case SetKind => Array(Firsts(entries), [])
    case DenseKind => Array(Elements(items, entries), Settled(Properties(c, entries)))
    case SparseKind => Array(Elements(Holes(length), entries), Settled(Properties(c, entries)))
  }

  function Holes(n: nat): seq<Value> {
    if n == 0 then [] else Holes(n - 1) + [Undefined]
  }

  function Firsts(entries: seq<seq<Value>>): seq<Value>
    requires OfWidth(entries, 1)
  {
    if entries == [] then [] else Firsts(entries[..|entries| - 1]) + [entries[|entries| - 1][0]]
  }

  function NameOf(c: Codecs, v: Value): Option<string> {
    if v.Str? then Some(v.s)
    else if v.Num? then Some((if v.n < 0 then "-" else "") + Decimal.Digits(if v.n < 0 then -v.n else v.n))
    else if v.Double? then Some(c.number(v.bits))
    else None
  }

  function CoercedName(c: Codecs, v: Value): string {
    if NameOf(c, v).Some? then NameOf(c, v).value
    else if v == Bool(true) then "true"
    else if v == Bool(false) then "false"
    else if v == Null then "null"
    else if v == Undefined then "undefined"
    else "[object Object]"
  }

  /** The array index a key stands for: a number below 2^32 - 1, or its decimal text. */
  ghost predicate Indexes(v: Value, n: nat) {
    n < 4294967295 && (v == Num(n) || v == Str(Decimal.Digits(n)))
  }

  function Named(c: Codecs, entries: seq<seq<Value>>): seq<(string, Value)>
    requires OfWidth(entries, 2)
  {
    if entries == [] then []
    else
      var last, rest := entries[|entries| - 1], Named(c, entries[..|entries| - 1]);
      if NameOf(c, last[0]).Some? then rest + [(NameOf(c, last[0]).value, last[1])] else rest
  }

  function Coerced(c: Codecs, entries: seq<seq<Value>>): seq<(string, Value)>
    requires OfWidth(entries, 2)
  {
    if entries == [] then []
    else Coerced(c, entries[..|entries| - 1]) + [(CoercedName(c, entries[|entries| - 1][0]), entries[|entries| - 1][1])]
  }

  ghost function Properties(c: Codecs, entries: seq<seq<Value>>): seq<(string, Value)>
    requires OfWidth(entries, 2)
  {
    if entries == [] then []
    else
      var last, rest := entries[|entries| - 1], Properties(c, entries[..|entries| - 1]);
      if (exists n :: Indexes(last[0], n)) || NameOf(c, last[0]).None? then rest
      else rest + [(NameOf(c, last[0]).value, last[1])]
  }

  /** Names in the order they first appear. */
  function FirstNames(ps: seq<(string, Value)>): seq<string> {
    if ps == [] then []
    else
      var rest, name := FirstNames(ps[..|ps| - 1]), ps[|ps| - 1].0;
      if name in rest then rest else rest + [name]
  }

  function LastValue(ps: seq<(string, Value)>, name: string): Value {
    if ps == [] then Undefined
    else if ps[|ps| - 1].0 == name then ps[|ps| - 1].1
    else LastValue(ps[..|ps| - 1], name)
  }

  /** Each name once, at its first place, with its last value. */
  function Settled(ps: seq<(string, Value)>): seq<(string, Value)> {
    var names := FirstNames(ps);
    seq(|names|, i requires 0 <= i < |names| => (names[i], LastValue(ps, names[i])))
  }

  /** The last entry for an index. */
  ghost function LastAt(entries: seq<seq<Value>>, i: nat): Option<Value>
    requires OfWidth(entries, 2)
  {
    if entries == [] then None
    else if Indexes(entries[|entries| - 1][0], i) then Some(entries[|entries| - 1][1])
    else LastAt(entries[..|entries| - 1], i)
  }

  /** Room for every index and every item. */
  ghost function Extent(n: nat, entries: seq<seq<Value>>): (r: nat)
    requires OfWidth(entries, 2)
    ensures r >= n
  {
    if entries == [] then n
    else
      var rest, key := Extent(n, entries[..|entries| - 1]), entries[|entries| - 1][0];
      if exists i :: Indexes(key, i) then
        var i: nat :| Indexes(key, i);
        Max(rest, i + 1)
      else rest
  }

  ghost function Elements(items: seq<Value>, entries: seq<seq<Value>>): seq<Value>
    requires OfWidth(entries, 2)
  {
    seq(Extent(|items|, entries), i requires i >= 0 => ElementAt(items, entries, i))
  }

  ghost function ElementAt(items: seq<Value>, entries: seq<seq<Value>>, i: nat): Value
    requires OfWidth(entries, 2)
  {
    if LastAt(entries, i).Some? then LastAt(entries, i).value else if i < |items| then items[i] else Undefined
  }

  // ---- adding entries one by one gives the meaning ----

  function AddAll(c: Codecs, k: Kind, v: Value, entries: seq<seq<Value>>): (r: Value)
    requires Fits(k, v) && OfWidth(entries, EntryWidth(k))
    ensures Fits(k, r)
    decreases |entries|
  {
    if entries == [] then v else AddAll(c, k, AddEntry(c, k, v, entries[0]), entries[1..])
  }

  lemma {:induction false} AddAllSnoc(c: Codecs, k: Kind, v: Value, entries: seq<seq<Value>>)
    requires Fits(k, v) && OfWidth(entries, EntryWidth(k)) && entries != []
    ensures AddAll(c, k, v, entries) == AddEntry(c, k, AddAll(c, k, v, entries[..|entries| - 1]), entries[|entries| - 1])
    decreases |entries|
  {
    hide AddEntry, Fits;
    var n := |entries| - 1;
    if n > 0 {
      AddAllSnoc(c, k, AddEntry(c, k, v, entries[0]), entries[1..]);
      assert entries[1..][..n - 1] == entries[..n][1..] && entries[1..][n - 1] == entries[n];
    } else {
      assert entries[..0] == [] && entries[1..] == [];
    }
  }

  lemma {:induction false} SetPropPlace(props: seq<(string, Value)>, k: string, v: Value, i: nat)
    requires i <= |props| && (i < |props| ==> props[i].0 == k) && forall j :: 0 <= j < i ==> props[j].0 != k
    ensures SetProp(props, k, v) == if i < |props| then props[i := (k, v)] else props + [(k, v)]
  {
    if i > 0 {
      SetPropPlace(props[1..], k, v, i - 1);
      assert props == [props[0]] + props[1..];
    }
  }

  lemma {:induction false} FirstNamesAre(ps: seq<(string, Value)>)
    ensures NoDup(FirstNames(ps)) && forall name :: name in FirstNames(ps) <==> exists i :: 0 <= i < |ps| && ps[i].0 == name
  {
    if ps != [] {
      var n := |ps| - 1;
      FirstNamesAre(ps[..n]);
      assert ps == ps[..n] + [ps[n]];
      forall name
        ensures name in FirstNames(ps) <==> exists i :: 0 <= i < |ps| && ps[i].0 == name
      {
        if name in FirstNames(ps[..n]) {
          var i :| 0 <= i < n && ps[..n][i].0 == name;
          assert ps[i].0 == name;
        }
        if i :| 0 <= i < |ps| && ps[i].0 == name {
          assert i < n ==> ps[..n][i].0 == name;
        }
      }
    }
  }

  /** One more assignment: a known name keeps its place and takes the value, a new one goes last. */
  lemma SettledSnoc(ps: seq<(string, Value)>, k: string, v: Value)
    ensures Settled(ps + [(k, v)]) == SetProp(Settled(ps), k, v)
  {
    TakeAppend(ps, (k, v));
    FirstNamesAre(ps);
    var names, s := FirstNames(ps), Settled(ps);
    if k in names {
      var i :| 0 <= i < |names| && names[i] == k;
      SetPropPlace(s, k, v, i);
      assert Settled(ps + [(k, v)]) == s[i := (k, v)];
    } else {
      SetPropPlace(s, k, v, |s|);
      assert Settled(ps + [(k, v)]) == s + [(k, v)];
    }
  }

  lemma NamesAgree(c: Codecs, v: Value)
    ensures KeyText(c, v) == NameOf(c, v) && AnyKeyText(c, v) == CoercedName(c, v)
  {
    if v.Num? {
      assert "" + Decimal.Digits(if v.n < 0 then -v.n else v.n) == Decimal.Digits(if v.n < 0 then -v.n else v.n);
    }
  }

  lemma IndexAgrees(v: Value, n: nat)
    ensures ArrayIndex(v) == Some(n) <==> Indexes(v, n)
  {
    Decimal.DigitsRoundTrip(n);
  }

  lemma {:induction false} ObjectAll(c: Codecs, entries: seq<seq<Value>>)
    requires OfWidth(entries, 2)
    ensures AddAll(c, ObjectKind, Object([]), entries) == Object(Settled(Named(c, entries)))
    decreases |entries|
  {
    hide SetProp, Settled, KeyText, NameOf;
    if entries == [] {
      NothingSettled();
    } else {
      var n := |entries| - 1;
      ObjectAll(c, entries[..n]);
      AddAllSnoc(c, ObjectKind, Object([]), entries);
      NamesAgree(c, entries[n][0]);
      if NameOf(c, entries[n][0]).Some? {
        SettledSnoc(Named(c, entries[..n]), NameOf(c, entries[n][0]).value, entries[n][1]);
      }
    }
  }

  lemma NothingSettled()
    ensures Settled([]) == []
  {
  }

  lemma {:induction false} MapAll(c: Codecs, entries: seq<seq<Value>>)
    requires OfWidth(entries, 2)
    ensures AddAll(c, MapKind, Object([]), entries) == Object(Settled(Coerced(c, entries)))
    decreases |entries|
  {
    hide SetProp, Settled, AnyKeyText, CoercedName;
    if entries == [] {
      NothingSettled();
    } else {
      var n := |entries| - 1;
      MapAll(c, entries[..n]);
      AddAllSnoc(c, MapKind, Object([]), entries);
      NamesAgree(c, entries[n][0]);
      SettledSnoc(Coerced(c, entries[..n]), CoercedName(c, entries[n][0]), entries[n][1]);
    }
  }

  lemma {:induction false} SetAll(c: Codecs, entries: seq<seq<Value>>)
    requires OfWidth(entries, 1)
    ensures AddAll(c, SetKind, Array([], []), entries) == Array(Firsts(entries), [])
    decreases |entries|
  {
    if entries != [] {
      SetAll(c, entries[..|entries| - 1]);
      AddAllSnoc(c, SetKind, Array([], []), entries);
    }
  }

  lemma ExtentSnoc(n: nat, front: seq<seq<Value>>, key: Value, v: Value, i: nat)
    requires OfWidth(front, 2) && Indexes(key, i)
    ensures Extent(n, front + [[key, v]]) == Max(Extent(n, front), i + 1)
  {
    TakeAppend(front, [key, v]);
    OneIndex(key, i);
  }

  /** One more array entry. */
  lemma ElementsSnoc(items: seq<Value>, front: seq<seq<Value>>, key: Value, v: Value, i: nat)
    requires OfWidth(front, 2) && Indexes(key, i)
    ensures var all, at := Elements(items, front + [[key, v]]), Elements(items, front);
      all == (if i < |at| then at else at + Undefineds(i + 1 - |at|))[i := v]
  {
    hide Extent, Indexes;
    TakeAppend(front, [key, v]);
    OneIndex(key, i);
    ExtentSnoc(|items|, front, key, v, i);
    NoneBeyond(items, front);
    var all, at := Elements(items, front + [[key, v]]), Elements(items, front);
    forall j: nat | j < |all|
      ensures all[j] == (if i < |at| then at else at + Undefineds(i + 1 - |at|))[i := v][j]
    {
      assert all[j] == ElementAt(items, front + [[key, v]], j);
      assert j < |at| ==> at[j] == ElementAt(items, front, j);
      assert LastAt(front + [[key, v]], j) == if Indexes(key, j) then Some(v) else LastAt(front, j);
      assert Indexes(key, j) <==> j == i;
    }
  }

  lemma OneIndex(key: Value, i: nat)
    requires Indexes(key, i)
    ensures forall j :: Indexes(key, j) ==> j == i
  {
    forall j | Indexes(key, j)
      ensures j == i
    {
      Decimal.DigitsRoundTrip(i);
      Decimal.DigitsRoundTrip(j);
    }
  }

  lemma {:induction false} NoneBeyond(items: seq<Value>, entries: seq<seq<Value>>)
    requires OfWidth(entries, 2)
    ensures forall j :: j >= Extent(|items|, entries) ==> LastAt(entries, j) == None
  {
    if entries != [] {
      var n := |entries| - 1;
      NoneBeyond(items, entries[..n]);
      forall j | j >= Extent(|items|, entries)
        ensures LastAt(entries, j) == None
      {
        if Indexes(entries[n][0], j) {
          OneIndex(entries[n][0], j);
        }
      }
    }
  }

  lemma ElementsOther(items: seq<Value>, front: seq<seq<Value>>, key: Value, v: Value)
    requires OfWidth(front, 2) && !exists i :: Indexes(key, i)
    ensures Elements(items, front + [[key, v]]) == Elements(items, front)
  {
    TakeAppend(front, [key, v]);
  }

  lemma {:induction false} ArrayAll(c: Codecs, k: Kind, items: seq<Value>, entries: seq<seq<Value>>)
    requires OfWidth(entries, 2) && IsArray(k)
    ensures AddAll(c, k, Array(items, []), entries) == Array(Elements(items, entries), Settled(Properties(c, entries)))
    decreases |entries|
  {
    hide SetProp, Settled, KeyText, NameOf, ArrayIndex, Elements, Undefineds;
    if entries == [] {
      NothingSettled();
      NothingIndexed(items);
    } else {
      var n := |entries| - 1;
      var front, key, v := entries[..n], entries[n][0], entries[n][1];
      assert entries[n] == [key, v] && entries == front + [[key, v]];
      ArrayAll(c, k, items, front);
      AddAllSnoc(c, k, Array(items, []), entries);
      NamesAgree(c, key);
      if i: nat :| Indexes(key, i) {
        IndexAgrees(key, i);
        ElementsSnoc(items, front, key, v, i);
      } else {
        NoIndex(key);
        ElementsOther(items, front, key, v);
        if NameOf(c, key).Some? {
          SettledSnoc(Properties(c, front), NameOf(c, key).value, v);
        }
      }
    }
  }

  lemma NothingIndexed(items: seq<Value>)
    ensures Elements(items, []) == items
  {
  }

  lemma NoIndex(key: Value)
    requires !exists i :: Indexes(key, i)
    ensures ArrayIndex(key) == None
  {
    if ArrayIndex(key).Some? {
      IndexAgrees(key, ArrayIndex(key).value);
    }
  }

  lemma {:induction false} HolesAre(n: nat)
    ensures Holes(n) == Undefineds(n)
  {
    if n > 0 {
      HolesAre(n - 1);
    }
  }

  /** Entry by entry a container comes to what its form means. */
  lemma AddsUp(c: Codecs, k: Kind, length: nat, items: seq<Value>, entries: seq<seq<Value>>)
    requires OfWidth(entries, EntryWidth(k))
    ensures AddAll(c, k, Empty(k, length, items), entries) == ContainerMeaning(c, k, length, items, entries)
  {
    hide AddAll, Settled, Named, Coerced, Properties, Elements, Firsts;
    match k
    case ObjectKind => ObjectAll(c, entries);
    case MapKind => MapAll(c, entries);
    case SetKind => SetAll(c, entries);
    case DenseKind => ArrayAll(c, k, items, entries);
    case SparseKind => HolesAre(length); ArrayAll(c, k, Undefineds(length), entries);
  }

  // ---- written bytes read back as what they mean ----

  /** `w` reads back from its bytes; a container or buffer is then what its receiver id stands for. */
  ghost predicate ReadsBack(c: Codecs, e: Encoders, buf: Bytes, pos: nat, t: Table, w: Wire)
    requires Writable(c, e, w)
  {
    var r := Read(c, buf, pos, t);
    && r.Done? && r.value == Meaning(c, e, w) && r.pos == pos + |Written(c, e, w)| && r.rank == 0
    && (w.WContainer? || w.WBuffer? ==> |t| < |r.table| && r.table[|t|] == Slot(pos, Some(Completed(r.value, 0))))
  }

  lemma BytesReadBack(buf: Bytes, pos: nat, b: Bytes)
    requires |b| < WORD && At(buf, pos, Encode(|b|) + b)
    ensures ReadBytes(buf, pos) == Some((b, pos + |Encode(|b|) + b|))
  {
    hide ReadVarint, Encode;
    AtParts(buf, pos, Encode(|b|), b);
    RoundTrip(buf, pos, |b|);
  }

  /** The first byte of anything written is a tag, never padding. */
  lemma Tagged(buf: Bytes, pos: nat, tag: Byte, rest: Bytes)
    requires At(buf, pos, [tag] + rest) && tag != 0
    ensures pos < |buf| && buf[pos] == tag && SkipPadding(buf, pos) == pos && At(buf, pos + 1, rest)
  {
    AtHead(buf, pos, tag, rest);
  }

  lemma ZigzagRoundTrip(n: int)
    ensures Zigzag(ZigzagOf(n)) == n
  {
  }

  lemma TextReadsBack(c: Codecs, e: Encoders, buf: Bytes, pos: nat, t: Table, form: TextForm, s: string)
    requires WritableText(c, e, form, s) && At(buf, pos, Written(c, e, WText(form, s)))
    ensures ReadsBack(c, e, buf, pos, t, WText(form, s))
  {
    hide ReadVarint, ReadContainer, Encode, At;
    var b := TextBytes(e, form, s);
    Tagged(buf, pos, TextTag(form), Encode(|b|) + b);
    BytesReadBack(buf, pos + 1, b);
    assert form == OneByteText ==> Latin1(b) == s;
  }

  lemma NumReadsBack(c: Codecs, e: Encoders, buf: Bytes, pos: nat, t: Table, w: Wire)
    requires (w.WInt? || w.WUint?) && Writable(c, e, w) && At(buf, pos, Written(c, e, w))
    ensures ReadsBack(c, e, buf, pos, t, w)
  {
    hide ReadVarint, ReadContainer, Encode, At;
    var m := if w.WInt? then ZigzagOf(w.n) else w.m;
    Tagged(buf, pos, if w.WInt? then 0x49 else 0x55, Encode(m));
    assert At(buf, pos + 1, Encode(m)) ==> ReadVarint(buf, pos + 1) == Some((m, pos + 1 + |Encode(m)|)) by {
      if At(buf, pos + 1, Encode(m)) {
        NumberReadsBack(buf, pos + 1, m);
      }
    }
    if w.WInt? {
      ZigzagRoundTrip(w.n);
    }
  }

  lemma NumberReadsBack(buf: Bytes, pos: nat, n: nat)
    requires n < WORD && At(buf, pos, Encode(n))
    ensures ReadVarint(buf, pos) == Some((n, pos + |Encode(n)|))
  {
    RoundTrip(buf, pos, n);
  }

  lemma BitsReadBack(c: Codecs, e: Encoders, buf: Bytes, pos: nat, t: Table, w: Wire)
    requires (w.WDouble? || w.WDate?) && Writable(c, e, w) && At(buf, pos, Written(c, e, w))
    ensures ReadsBack(c, e, buf, pos, t, w)
  {
    hide ReadVarint, ReadContainer;
    Tagged(buf, pos, if w.WDate? then 0x44 else if w.boxed then 0x6e else 0x4e, w.bits);
  }

  lemma TagReadsBack(c: Codecs, e: Encoders, buf: Bytes, pos: nat, t: Table, w: Wire)
    requires (w.WUndefined? || w.WNull? || w.WBool?) && At(buf, pos, Written(c, e, w))
    ensures ReadsBack(c, e, buf, pos, t, w)
  {
    hide ReadVarint, ReadContainer;
    var tag := Written(c, e, w)[0];
    assert [tag] + [] == Written(c, e, w);
    Tagged(buf, pos, tag, []);
  }

  lemma BufferReadsBack(c: Codecs, e: Encoders, buf: Bytes, pos: nat, t: Table, b: Bytes)
    requires |b| < WORD && At(buf, pos, Written(c, e, WBuffer(b)))
    ensures ReadsBack(c, e, buf, pos, t, WBuffer(b))
  {
    hide ReadVarint, ReadContainer, Encode, At, ReadBytes;
    Tagged(buf, pos, 0x42, Encode(|b|) + b);
    BytesReadBack(buf, pos + 1, b);
  }

  lemma {:induction false} PaddingSkipped(buf: Bytes, pos: nat)
    ensures SkipPadding(buf, SkipPadding(buf, pos)) == SkipPadding(buf, pos)
    decreases |buf| - pos
  {
    if pos < |buf| && buf[pos] == 0 {
      PaddingSkipped(buf, pos + 1);
    }
  }

  /** Padding before a value makes no difference. */
  lemma PaddedReads(c: Codecs, buf: Bytes, pos: nat, t: Table)
    ensures Read(c, buf, SkipPadding(buf, pos), t) == Read(c, buf, pos, t)
    ensures pos < |buf| && buf[pos] == 0 ==> Read(c, buf, pos, t) == Read(c, buf, pos + 1, t)
  {
    hide ReadContainer, ReadVarint, Leaf, KindOf;
    PaddingSkipped(buf, pos);
  }

  /** A written value starts with a tag that ends no container. */
  lemma {:induction false} Starts(c: Codecs, e: Encoders, buf: Bytes, pos: nat, w: Wire)
    requires Writable(c, e, w) && At(buf, pos, Written(c, e, w))
    ensures var p := SkipPadding(buf, pos); p < |buf| && forall k: Kind :: buf[p] != CloseTag(k)
    decreases w
  {
    hide At, SkipPadding, Encode;
    var b := Written(c, e, w);
    match w
    case WPadded(inner) =>
      AtHead(buf, pos, 0, Written(c, e, inner));
      Starts(c, e, buf, pos + 1, inner);
      SkipOne(buf, pos);
    case _ =>
      assert b != [] && b[0] != 0 && forall k: Kind :: b[0] != CloseTag(k);
      assert b == [b[0]] + b[1..];
      Tagged(buf, pos, b[0], b[1..]);
  }

  lemma SkipOne(buf: Bytes, pos: nat)
    requires pos < |buf| && buf[pos] == 0
    ensures SkipPadding(buf, pos) == SkipPadding(buf, pos + 1)
  {
  }

  /** Main result: whatever is written reads back as what it means, wherever it stands and whatever ids were registered before. */
  lemma {:induction false} ValueReadsBack(c: Codecs, e: Encoders, buf: Bytes, pos: nat, t: Table, w: Wire)
    requires Writable(c, e, w) && At(buf, pos, Written(c, e, w))
    ensures ReadsBack(c, e, buf, pos, t, w)
    decreases w, 3, 0
  {
    match w
    case WPadded(inner) => PaddedReadsBack(c, e, buf, pos, t, w);
    case WBoxed(inner) => BoxedReadsBack(c, e, buf, pos, t, w);
    case WContainer(_, _, _, _) => ContainerReadsBack(c, e, buf, pos, t, w);
    case WInt(_) => NumReadsBack(c, e, buf, pos, t, w);
    case WUint(_) => NumReadsBack(c, e, buf, pos, t, w);
    case WDouble(_, _) => BitsReadBack(c, e, buf, pos, t, w);
    case WDate(_) => BitsReadBack(c, e, buf, pos, t, w);
    case WText(form, s) => TextReadsBack(c, e, buf, pos, t, form, s);
    case WBuffer(b) => BufferReadsBack(c, e, buf, pos, t, b);
    case _ => TagReadsBack(c, e, buf, pos, t, w);
  }

  lemma PaddedReadsBack(c: Codecs, e: Encoders, buf: Bytes, pos: nat, t: Table, w: Wire)
    requires w.WPadded? && Writable(c, e, w) && At(buf, pos, Written(c, e, w))
    ensures ReadsBack(c, e, buf, pos, t, w)
    decreases w, 2, 0
  {
    hide Read, At;
    AtHead(buf, pos, 0, Written(c, e, w.inner));
    ValueReadsBack(c, e, buf, pos + 1, t, w.inner);
    PaddedReads(c, buf, pos, t);
  }

  lemma BoxedReadsBack(c: Codecs, e: Encoders, buf: Bytes, pos: nat, t: Table, w: Wire)
    requires w.WBoxed? && Writable(c, e, w) && At(buf, pos, Written(c, e, w))
    ensures ReadsBack(c, e, buf, pos, t, w)
    decreases w, 2, 0
  {
    hide At, ReadContainer, ReadVarint, Leaf, KindOf;
    Tagged(buf, pos, 0x73, Written(c, e, w.inner));
    ValueReadsBack(c, e, buf, pos + 1, t, w.inner);
  }

  /** The values of one list from the `i`-th on. */
  lemma {:induction false} ListReadsBack(c: Codecs, e: Encoders, buf: Bytes, pos: nat, t: Table, w: Wire, j: nat, i: nat)
    requires w.WContainer? && Writable(c, e, w) && j <= |w.entries| && i <= |ListOf(w, j)| && At(buf, pos, WrittenList(c, e, w, j, i))
    ensures var r := ReadValues(c, buf, pos, t, |ListOf(w, j)| - i);
      r.Done? && r.value == Meanings(c, e, w, j, i) && r.pos == pos + |WrittenList(c, e, w, j, i)| && r.rank == 0
    decreases w, 0, |ListOf(w, j)| - i
  {
    hide Read, At, Written, Meaning;
    if i < |ListOf(w, j)| {
      var x := ListOf(w, j)[i];
      AtParts(buf, pos, Written(c, e, x), WrittenList(c, e, w, j, i + 1));
      ValueReadsBack(c, e, buf, pos, t, x);
      ListReadsBack(c, e, buf, pos + |Written(c, e, x)|, Read(c, buf, pos, t).table, w, j, i + 1);
    }
  }

  /** The entries from the `j`-th on, up to the end tag. */
  lemma {:induction false} EntriesReadBack(c: Codecs, e: Encoders, buf: Bytes, pos: nat, t: Table, w: Wire, j: nat, v: Value)
    requires w.WContainer? && Writable(c, e, w) && 1 <= j <= |w.entries| + 1 && Fits(w.kind, v) && At(buf, pos, WrittenEntries(c, e, w, j))
    requires pos + |WrittenEntries(c, e, w, j)| < |buf| && buf[pos + |WrittenEntries(c, e, w, j)|] == CloseTag(w.kind)
    ensures var r := ReadEntries(c, buf, pos, t, w.kind, v);
      && r.Done? && r.value == AddAll(c, w.kind, v, EntryMeanings(c, e, w, j))
      && r.pos == pos + |WrittenEntries(c, e, w, j)| && r.rank == 0
    decreases w, 1, |w.entries| + 1 - j
  {
    hide At, AddEntry, Fits, ReadValues, ReadEntries, WrittenList, Meanings, Written, Writable;
    if j > |w.entries| {
      StopsAtOnce(c, buf, pos, t, w.kind, v);
    } else {
      var a, rest := WrittenList(c, e, w, j, 0), WrittenEntries(c, e, w, j + 1);
      AtParts(buf, pos, a, rest);
      ListReadsBack(c, e, buf, pos, t, w, j, 0);
      EntryStarts(c, e, buf, pos, t, w, j);
      var r := ReadValues(c, buf, pos, t, EntryWidth(w.kind));
      assert EntryMeanings(c, e, w, j)[0] == r.value && EntryMeanings(c, e, w, j)[1..] == EntryMeanings(c, e, w, j + 1);
      EntriesReadBack(c, e, buf, pos + |a|, r.table, w, j + 1, AddEntry(c, w.kind, v, r.value));
      EntryStep(c, buf, pos, t, w.kind, v);
    }
  }

  lemma StopsAtOnce(c: Codecs, buf: Bytes, pos: nat, t: Table, k: Kind, v: Value)
    requires pos < |buf| && buf[pos] == CloseTag(k) && Fits(k, v)
    ensures ReadEntries(c, buf, pos, t, k, v) == Done(v, pos, t, 0)
  {
    hide AddEntry, Fits;
  }

  /** An entry is no end tag, and the padding before it makes no difference. */
  lemma EntryStarts(c: Codecs, e: Encoders, buf: Bytes, pos: nat, t: Table, w: Wire, j: nat)
    requires w.WContainer? && Writable(c, e, w) && 1 <= j <= |w.entries| && At(buf, pos, WrittenList(c, e, w, j, 0))
    ensures EntryWidth(w.kind) == |ListOf(w, j)| == Arity(w.kind)
    ensures var p := SkipPadding(buf, pos);
      && p < |buf| && buf[p] != CloseTag(w.kind)
      && ReadValues(c, buf, p, t, Arity(w.kind)) == ReadValues(c, buf, pos, t, Arity(w.kind))
  {
    hide Read, At, Written, SkipPadding;
    var x := ListOf(w, j)[0];
    assert WrittenList(c, e, w, j, 0) == Written(c, e, x) + WrittenList(c, e, w, j, 1);
    AtParts(buf, pos, Written(c, e, x), WrittenList(c, e, w, j, 1));
    Starts(c, e, buf, pos, x);
    PaddedReads(c, buf, pos, t);
  }

  lemma EntryStep(c: Codecs, buf: Bytes, pos: nat, t: Table, k: Kind, v: Value)
    requires Fits(k, v) && pos <= |buf| && SkipPadding(buf, pos) < |buf| && buf[SkipPadding(buf, pos)] != CloseTag(k)
    requires ReadValues(c, buf, SkipPadding(buf, pos), t, Arity(k)) == ReadValues(c, buf, pos, t, Arity(k))
    requires ReadValues(c, buf, pos, t, Arity(k)).Done?
    ensures var entry := ReadValues(c, buf, pos, t, Arity(k));
      var rest := ReadEntries(c, buf, entry.pos, entry.table, k, AddEntry(c, k, v, entry.value));
      rest.Done? ==> ReadEntries(c, buf, pos, t, k, v) == Done(rest.value, rest.pos, rest.table, Max(entry.rank, rest.rank))
  {
    hide ReadValues, AddEntry, Fits;
  }

  lemma LengthReadsBack(buf: Bytes, pos: nat, k: Kind, length: nat)
    requires length < WORD && (!IsArray(k) ==> length == 0) && pos <= |buf| && At(buf, pos, Announced(k, length))
    ensures (if HasLength(k) then ReadVarint(buf, pos) else Some((0, pos))) == Some((length, pos + |Announced(k, length)|))
  {
    if IsArray(k) {
      NumberReadsBack(buf, pos, length);
    }
  }

  lemma OneVarint(buf: Bytes, pos: nat)
    ensures SkipVarints(buf, pos, 1) == if ReadVarint(buf, pos).None? then None else Some(ReadVarint(buf, pos).value.1)
    ensures SkipVarints(buf, pos, 2) == if ReadVarint(buf, pos).None? then None else SkipVarints(buf, ReadVarint(buf, pos).value.1, 1)
  {
  }

  lemma CountsSkipped(buf: Bytes, pos: nat, w: Wire)
    requires w.WContainer? && |w.entries| < WORD && w.length < WORD && At(buf, pos, Counts(w))
    ensures SkipVarints(buf, pos, Trailer(w.kind)) == Some(pos + |Counts(w)|)
  {
    hide At, ReadVarint, Encode;
    var n := Encode(|w.entries|);
    OneVarint(buf, pos);
    if IsArray(w.kind) {
      AtParts(buf, pos, n, Encode(w.length));
      NumberReadsBack(buf, pos, |w.entries|);
      NumberReadsBack(buf, pos + |n|, w.length);
      OneVarint(buf, pos + |n|);
    } else {
      assert Counts(w) == n;
      NumberReadsBack(buf, pos, |w.entries|);
    }
  }

  lemma NoPadding(buf: Bytes, pos: nat)
    requires pos < |buf| && buf[pos] != 0
    ensures SkipPadding(buf, pos) == pos
  {
  }

  /** A container put together from what its parts read as. */
  lemma ContainerReads(c: Codecs, buf: Bytes, pos: nat, t: Table, k: Kind, length: nat, start: nat, items: Outcome<seq<Value>>,
                       whole: Outcome<Value>, end: nat)
    requires pos < |buf| && buf[pos] == OpenTag(k)
    requires (if HasLength(k) then ReadVarint(buf, pos + 1) else Some((0, pos + 1))) == Some((length, start)) && start <= |buf|
    requires items == ReadValues(c, buf, start, t + [Slot(pos, None)], if k == DenseKind then length else 0)
    requires items.Done? && items.rank == 0
    requires whole == ReadEntries(c, buf, items.pos, items.table, k, Empty(k, length, items.value)) && whole.Done? && whole.rank == 0
    requires SkipVarints(buf, whole.pos + 1, Trailer(k)) == Some(end)
    ensures var r := Read(c, buf, pos, t);
      r.Done? && r.value == whole.value && r.pos == end && r.rank == 0 && |t| < |r.table| && r.table[|t|] == Slot(pos, Some(Completed(r.value, 0)))
  {
    hide ReadValues, ReadEntries, ReadVarint, SkipVarints, Empty, Leaf, SkipPadding;
    var entered := t + [Slot(pos, None)];
    assert entered[|t|] == Slot(pos, None) && entered <= whole.table;
    assert whole.table[|t|] == Slot(pos, None);
    NoPadding(buf, pos);
  }

  /** Where the parts of a written container stand. */
  lemma PartsStand(c: Codecs, e: Encoders, buf: Bytes, pos: nat, w: Wire)
    requires w.WContainer? && Writable(c, e, w) && At(buf, pos, Written(c, e, w))
    ensures var start := pos + 1 + |Announced(w.kind, w.length)|;
      var body := start + |WrittenList(c, e, w, 0, 0)|;
      var stop := body + |WrittenEntries(c, e, w, 1)|;
      && stop + 1 + |Counts(w)| == pos + |Written(c, e, w)| && stop < |buf| && buf[pos] == OpenTag(w.kind) && buf[stop] == CloseTag(w.kind)
      && At(buf, pos + 1, Announced(w.kind, w.length)) && At(buf, start, WrittenList(c, e, w, 0, 0))
      && At(buf, body, WrittenEntries(c, e, w, 1)) && At(buf, stop + 1, Counts(w))
  {
    hide Encode, WrittenList, WrittenEntries, At, Counts, Announced, Writable;
    var head, list, entries, tail := Announced(w.kind, w.length), WrittenList(c, e, w, 0, 0), WrittenEntries(c, e, w, 1),
                                     [CloseTag(w.kind)] + Counts(w);
    Tagged(buf, pos, OpenTag(w.kind), head + (list + (entries + tail)));
    AtParts(buf, pos + 1, head, list + (entries + tail));
    AtParts(buf, pos + 1 + |head|, list, entries + tail);
    AtParts(buf, pos + 1 + |head| + |list|, entries, tail);
    Tagged(buf, pos + 1 + |head| + |list| + |entries|, CloseTag(w.kind), Counts(w));
  }

  lemma ContainerReadsBack(c: Codecs, e: Encoders, buf: Bytes, pos: nat, t: Table, w: Wire)
    requires w.WContainer? && Writable(c, e, w) && At(buf, pos, Written(c, e, w))
    ensures ReadsBack(c, e, buf, pos, t, w)
    decreases w, 2, 0
  {
    hide ReadVarint, Encode, ReadEntries, ReadValues, WrittenList, WrittenEntries, SkipVarints, At, ReadContainer, Read, Counts, Announced, Meanings,
         EntryMeanings, ContainerMeaning, AddAll, Writable, Written, OpenTag, CloseTag;
    var k, length := w.kind, w.length;
    ContainerBounds(c, e, w);
    PartsStand(c, e, buf, pos, w);
    LengthReadsBack(buf, pos + 1, k, length);
    var start := pos + 1 + |Announced(k, length)|;
    ListReadsBack(c, e, buf, start, t + [Slot(pos, None)], w, 0, 0);
    var items := ReadValues(c, buf, start, t + [Slot(pos, None)], |w.items|);
    EntriesReadBack(c, e, buf, items.pos, items.table, w, 1, Empty(k, length, items.value));
    var whole := ReadEntries(c, buf, items.pos, items.table, k, Empty(k, length, items.value));
    CountsSkipped(buf, whole.pos + 1, w);
    AddsUp(c, k, length, items.value, EntryMeanings(c, e, w, 1));
    ContainerReads(c, buf, pos, t, k, length, start, items, whole, whole.pos + 1 + |Counts(w)|);
  }

  lemma ContainerBounds(c: Codecs, e: Encoders, w: Wire)
    requires w.WContainer? && Writable(c, e, w)
    ensures w.length < WORD && |w.entries| < WORD && (!IsArray(w.kind) ==> w.length == 0)
    ensures |w.items| == if w.kind == DenseKind then w.length else 0
  {
  }

  /** Both decoders undo the writer. */
  lemma WrittenDecodes(c: Codecs, e: Encoders, w: Wire)
    requires Writable(c, e, w)
    ensures var r := Read(c, Written(c, e, w), 0, []); r.Done? && r.value == Meaning(c, e, w)
    ensures var d := Decode(c, Written(c, e, w), 0, [], 0); d.Ok? && d.value == Meaning(c, e, w) && d.pos == |Written(c, e, w)|
  {
    hide Read, Decode, Written, Meaning;
    var b := Written(c, e, w);
    assert b[0..|b|] == b;
    ValueReadsBack(c, e, b, 0, [], w);
    ReplayIsTable(c, b, 0);
  }

  /** A reference written after a container or buffer reads as the same value again. */
  lemma ReferenceReadsBack(c: Codecs, e: Encoders, buf: Bytes, pos: nat, t: Table, w: Wire)
    requires Writable(c, e, w) && (w.WContainer? || w.WBuffer?) && |t| < WORD
    requires At(buf, pos, Written(c, e, w) + ([0x5e] + Encode(|t|)))
    ensures var first := Read(c, buf, pos, t);
      && first.Done? && first.value == Meaning(c, e, w)
      && var again := Read(c, buf, first.pos, first.table);
      again.Done? && again.value == first.value && again.table == first.table && again.pos == first.pos + 1 + |Encode(|t|)|
  {
    hide At, Written, Meaning, Encode, ReadVarint, ReadContainer, Leaf, KindOf;
    AtParts(buf, pos, Written(c, e, w), [0x5e] + Encode(|t|));
    ValueReadsBack(c, e, buf, pos, t, w);
    var first := Read(c, buf, pos, t);
    Tagged(buf, first.pos, 0x5e, Encode(|t|));
    NumberReadsBack(buf, first.pos + 1, |t|);
  }

  // ---- every value has a form ----

  ghost predicate DistinctNames(props: seq<(string, Value)>) {
    forall i, j :: 0 <= i < j < |props| ==> props[i].0 != props[j].0
  }

  ghost predicate WritableNames(c: Codecs, e: Encoders, props: seq<(string, Value)>) {
    DistinctNames(props) && |props| < WORD && forall i :: 0 <= i < |props| ==> WritableText(c, e, FormOfText(props[i].0), props[i].0)
  }

  /** Every value the decoder can give, within the format's widths: names are distinct, and those of an array's properties are no indices. */
  ghost predicate Representable(c: Codecs, e: Encoders, v: Value)
    decreases v
  {
    match v
    case Num(n) => ZigzagOf(n) < WORD
    case Double(bits) => |bits| == 8 && c.integral(bits).None?
    case Date(bits) => |bits| == 8
    case Str(s) => WritableText(c, e, FormOfText(s), s)
    case Buffer(b) => |b| < WORD
    case Object(props) => WritableNames(c, e, props) && forall i :: 0 <= i < |props| ==> Representable(c, e, props[i].1)
    case Array(items, props) =>
      && |items| < WORD && (forall i :: 0 <= i < |items| ==> Representable(c, e, items[i]))
      && WritableNames(c, e, props) && (forall i :: 0 <= i < |props| ==> Representable(c, e, props[i].1))
      && (forall i, n: nat :: 0 <= i < |props| ==> !Indexes(Str(props[i].0), n))
    case _ => true
  }

  function FormOfText(s: string): TextForm {
    if forall c | c in s :: c < 256 as char then OneByteText else WideText
  }

  function FormOf(v: Value): Wire
    decreases v
  {
    match v
    case Undefined => WUndefined
    case Null => WNull
    case Bool(b) => WBool(b, false)
    case Num(n) => WInt(n)
    case Double(bits) => WDouble(bits, false)
    case Date(bits) => WDate(bits)
    case Str(s) => WText(FormOfText(s), s)
    case Buffer(b) => WBuffer(b)
    case Object(props) => WContainer(ObjectKind, 0, [], seq(|props|, i requires 0 <= i < |props| => NamedEntry(props[i].0, FormOf(props[i].1))))
    case Array(items, props) =>
      WContainer(DenseKind, |items|, seq(|items|, i requires 0 <= i < |items| => FormOf(items[i])),
                 seq(|props|, i requires 0 <= i < |props| => NamedEntry(props[i].0, FormOf(props[i].1))))
  }

  function NamedEntry(name: string, w: Wire): Entry {
    Entry([WText(FormOfText(name), name), w])
  }

  function Pairs(props: seq<(string, Value)>): (r: seq<seq<Value>>)
    ensures |r| == |props| && OfWidth(r, 2)
  {
    seq(|props|, i requires 0 <= i < |props| => [Str(props[i].0), props[i].1])
  }

  lemma {:induction false} DistinctSettled(props: seq<(string, Value)>)
    requires DistinctNames(props)
    ensures Settled(props) == props
  {
    if props != [] {
      var n := |props| - 1;
      DistinctSettled(props[..n]);
      assert props == props[..n] + [props[n]];
      SettledSnoc(props[..n], props[n].0, props[n].1);
      SetPropPlace(props[..n], props[n].0, props[n].1, n);
    }
  }

  lemma {:induction false} PairsNamed(c: Codecs, props: seq<(string, Value)>)
    ensures Named(c, Pairs(props)) == props
  {
    if props != [] {
      var n := |props| - 1;
      PairsNamed(c, props[..n]);
      assert Pairs(props)[..n] == Pairs(props[..n]);
    }
  }

  lemma {:induction false} PairsProperties(c: Codecs, items: seq<Value>, props: seq<(string, Value)>)
    requires forall i, n: nat :: 0 <= i < |props| ==> !Indexes(Str(props[i].0), n)
    ensures Properties(c, Pairs(props)) == props && Extent(|items|, Pairs(props)) == |items|
    ensures forall i :: LastAt(Pairs(props), i) == None
  {
    hide Indexes;
    if props != [] {
      var n := |props| - 1;
      PairsProperties(c, items, props[..n]);
      assert Pairs(props)[..n] == Pairs(props[..n]);
    }
  }

  lemma PairsElements(c: Codecs, items: seq<Value>, props: seq<(string, Value)>)
    requires forall i, n: nat :: 0 <= i < |props| ==> !Indexes(Str(props[i].0), n)
    ensures Properties(c, Pairs(props)) == props && Elements(items, Pairs(props)) == items
  {
    hide Properties, Extent, LastAt, Indexes;
    PairsProperties(c, items, props);
  }

  lemma {:induction false} EntriesMean(c: Codecs, e: Encoders, w: Wire, props: seq<(string, Value)>, j: nat)
    requires w.WContainer? && Writable(c, e, w) && w.kind != SetKind && |w.entries| == |props| && 1 <= j <= |props| + 1
    requires forall i :: 0 <= i < |props| ==>
      && w.entries[i] == NamedEntry(props[i].0, FormOf(props[i].1))
      && Writable(c, e, FormOf(props[i].1)) && Meaning(c, e, FormOf(props[i].1)) == props[i].1
    ensures EntryMeanings(c, e, w, j) == Pairs(props)[j - 1..]
    decreases |props| + 1 - j
  {
    hide FormOf, Writable;
    if j <= |props| {
      EntriesMean(c, e, w, props, j + 1);
      var list := ListOf(w, j);
      assert Meanings(c, e, w, j, 2) == [];
      assert Meanings(c, e, w, j, 1) == [props[j - 1].1];
      assert Meanings(c, e, w, j, 0) == [Str(props[j - 1].0), props[j - 1].1];
    }
  }

  lemma {:induction false} ItemsMean(c: Codecs, e: Encoders, w: Wire, items: seq<Value>, i: nat)
    requires w.WContainer? && Writable(c, e, w) && |w.items| == |items| && i <= |items|
    requires forall n :: 0 <= n < |items| ==>
      w.items[n] == FormOf(items[n]) && Writable(c, e, FormOf(items[n])) && Meaning(c, e, FormOf(items[n])) == items[n]
    ensures Meanings(c, e, w, 0, i) == items[i..]
    decreases |items| - i
  {
    hide FormOf, Writable;
    if i < |items| {
      ItemsMean(c, e, w, items, i + 1);
    }
  }

  /** Every representable value can be written, and its form means just that value. */
  lemma {:induction false} FormMeans(c: Codecs, e: Encoders, v: Value)
    requires Representable(c, e, v)
    ensures Writable(c, e, FormOf(v)) && Meaning(c, e, FormOf(v)) == v
    decreases v
  {
    match v
    case Object(props) =>
      forall i | 0 <= i < |props|
        ensures Writable(c, e, FormOf(props[i].1)) && Meaning(c, e, FormOf(props[i].1)) == props[i].1
      {
        FormMeans(c, e, props[i].1);
      }
      ObjectMeans(c, e, props);
    case Array(items, props) =>
      forall i | 0 <= i < |props|
        ensures Writable(c, e, FormOf(props[i].1)) && Meaning(c, e, FormOf(props[i].1)) == props[i].1
      {
        FormMeans(c, e, props[i].1);
      }
      forall i | 0 <= i < |items|
        ensures Writable(c, e, FormOf(items[i])) && Meaning(c, e, FormOf(items[i])) == items[i]
      {
        FormMeans(c, e, items[i]);
      }
      ArrayMeans(c, e, items, props);
    case _ =>
  }

  lemma ObjectMeans(c: Codecs, e: Encoders, props: seq<(string, Value)>)
    requires WritableNames(c, e, props)
    requires forall i :: 0 <= i < |props| ==> Writable(c, e, FormOf(props[i].1)) && Meaning(c, e, FormOf(props[i].1)) == props[i].1
    ensures Writable(c, e, FormOf(Object(props))) && Meaning(c, e, FormOf(Object(props))) == Object(props)
  {
    hide Settled, Named, EntryMeanings, Pairs;
    var w := FormOf(Object(props));
    assert Writable(c, e, w) by {
      forall i, j | 0 <= i < |w.entries| && 0 <= j < |w.entries[i].values|
        ensures Writable(c, e, w.entries[i].values[j])
      {
        assert j == 0 || j == 1;
      }
    }
    EntriesMean(c, e, w, props, 1);
    PairsNamed(c, props);
    DistinctSettled(props);
  }

  lemma ArrayMeans(c: Codecs, e: Encoders, items: seq<Value>, props: seq<(string, Value)>)
    requires WritableNames(c, e, props) && |items| < WORD && forall i, n: nat :: 0 <= i < |props| ==> !Indexes(Str(props[i].0), n)
    requires forall i :: 0 <= i < |props| ==> Writable(c, e, FormOf(props[i].1)) && Meaning(c, e, FormOf(props[i].1)) == props[i].1
    requires forall i :: 0 <= i < |items| ==> Writable(c, e, FormOf(items[i])) && Meaning(c, e, FormOf(items[i])) == items[i]
    ensures Writable(c, e, FormOf(Array(items, props))) && Meaning(c, e, FormOf(Array(items, props))) == Array(items, props)
  {
    hide Settled, Named, EntryMeanings, Pairs, Meanings, Properties, Elements, Indexes;
    var w := FormOf(Array(items, props));
    assert Writable(c, e, w) by {
      forall i, j | 0 <= i < |w.entries| && 0 <= j < |w.entries[i].values|
        ensures Writable(c, e, w.entries[i].values[j])
      {
        assert j == 0 || j == 1;
      }
    }
    EntriesMean(c, e, w, props, 1);
    ItemsMean(c, e, w, items, 0);
    PairsElements(c, items, props);
    DistinctSettled(props);
  }

  /** Main result: both decoders undo the writer of values. */
  lemma ValueDecodes(c: Codecs, e: Encoders, v: Value)
    requires Representable(c, e, v)
    ensures Writable(c, e, FormOf(v))
    ensures var b := Written(c, e, FormOf(v));
      && Read(c, b, 0, []).Done? && Read(c, b, 0, []).value == v
      && var d := Decode(c, b, 0, [], 0); d.Ok? && d.value == v && d.pos == |b|
  {
    hide Read, Decode, Written, Meaning, Writable, FormOf;
    FormMeans(c, e, v);
    WrittenDecodes(c, e, FormOf(v));
  }
}
