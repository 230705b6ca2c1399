/** The two readers as objects that change step by step: the replaying one keeps byte offsets and a depth, the other a table of
    values. */
module CloneReaders {
  import opened Base
  import opened Source
  import opened Varints
  import opened StructuredClone

  class Reader {
    const c: Codecs
    const buf: Bytes
    var pos: nat
    var objects: seq<nat>
    var resolveDepth: nat

    constructor (c: Codecs, buf: Bytes)
      ensures this.c == c && this.buf == buf && pos == 0 && objects == [] && resolveDepth == 0
    {
      this.c, this.buf := c, buf;
      pos, objects, resolveDepth := 0, [], 0;
    }

    /** The reader is where `r` says, having read `v`; an error leaves it anywhere. */
    predicate Follows<T(==)>(v: Option<T>, r: Result<T>)
      reads this
    {
      if r.Err? then v == None else v == Some(r.value) && pos == r.pos && objects == r.objects
    }

    method SkipZeros()
      modifies this`pos
      ensures pos == SkipPadding(buf, old(pos))
    {
      while pos < |buf| && buf[pos] == 0
        invariant SkipPadding(buf, pos) == SkipPadding(buf, old(pos))
      {
        pos := pos + 1;
      }
    }

    method ReadNumber() returns (v: Option<nat>)
      modifies this`pos
      ensures v.Some? <==> ReadVarint(buf, old(pos)).Some?
      ensures v.Some? ==> (v.value, pos) == ReadVarint(buf, old(pos)).value
    {
      var n: nat, shift: nat := 0, 0;
      while true
        invariant Varint(buf, pos, n, shift) == ReadVarint(buf, old(pos))
        decreases |buf| - pos
      {
        if pos >= |buf| {
          return None;
        }
        var b := buf[pos];
        pos := pos + 1;
        n := (n + Shifted(b % 128, shift)) % WORD;
        if b < 128 {
          return Some(n);
        }
        shift := shift + 7;
        if shift >= 64 {
          return None;
        }
      }
    }

    method RegisterContainer(tagPos: nat)
      modifies this`objects
      ensures objects == Register(old(objects), tagPos, resolveDepth)
    {
      if resolveDepth == 0 {
        objects := objects + [tagPos];
      }
    }

    /** One value of any kind. */
    method ReadValue() returns (v: Option<Value>)
      requires resolveDepth <= CAP + 1
      modifies this
      ensures resolveDepth == old(resolveDepth)
      ensures Follows(v, Decode(c, buf, old(pos), old(objects), old(resolveDepth)))
      decreases CAP + 1 - resolveDepth, Left(buf, pos), 0
    {
      hide DecodeContainer, Leaf, ReadVarint, ReadBytes;
      SkipZeros();
      var tagPos := pos;
      if pos >= |buf| {
        return None;
      }
      var tag := buf[pos];
      pos := pos + 1;
      if tag == 0x5e {
        v := ReadReference();
      } else if tag == 0x73 {
        v := ReadValue();
      } else if tag == 0x42 {
        var b := ReadBytes(buf, pos);
        if b.None? {
          return None;
        }
        pos := b.value.1;
        RegisterContainer(tagPos);
        v := Some(Buffer(b.value.0));
      } else if KindOf(tag).Some? {
        v := ReadContainerOf(tagPos, KindOf(tag).value);
      } else {
        var leaf := Leaf(c, buf, pos, tag);
        if leaf.None? {
          return None;
        }
        pos := leaf.value.1;
        v := Some(leaf.value.0);
      }
    }

    /** A back-reference: read the target's bytes again, one level deeper, then come back. */
    method ReadReference() returns (v: Option<Value>)
      requires resolveDepth <= CAP + 1
      modifies this
      ensures resolveDepth == old(resolveDepth)
      ensures var id := ReadVarint(buf, old(pos));
        if id.None? || id.value.0 >= |old(objects)| || resolveDepth > CAP then v == None
        else
          var target := Decode(c, buf, old(objects)[id.value.0], old(objects), resolveDepth + 1);
          Follows(v, if target.Err? then Err else Ok(target.value, id.value.1, old(objects)))
      decreases CAP + 1 - resolveDepth, Left(buf, pos), 0
    {
      hide ReadVarint;
      var id := ReadNumber();
      if id.None? || id.value >= |objects| || resolveDepth > CAP {
        return None;
      }
      var save := pos;
      pos := objects[id.value];
      resolveDepth := resolveDepth + 1;
      v := ReadValue();
      resolveDepth := resolveDepth - 1;
      pos := save;
    }

    /** The container whose tag was just read: its length, if it has one, then its receiver id, then its content. */
    method ReadContainerOf(tagPos: nat, k: Kind) returns (v: Option<Value>)
      requires resolveDepth <= CAP + 1 && tagPos < |buf| && pos == tagPos + 1
      modifies this
      ensures resolveDepth == old(resolveDepth)
      ensures Follows(v, DecodeContainer(c, buf, tagPos, k, old(objects), old(resolveDepth)))
      decreases CAP + 1 - resolveDepth, Left(buf, pos), 4
    {
      hide DecodeBody, ReadVarint, Register, HasLength;
      var length := ReadLength(k);
      if length.None? {
        return None;
      }
      RegisterContainer(tagPos);
      v := ReadBody(k, length.value);
    }

    /** A dense array's items, then entries up to the end tag, then the trailing counts. */
    method ReadBody(k: Kind, length: nat) returns (v: Option<Value>)
      requires resolveDepth <= CAP + 1 && pos <= |buf|
      modifies this
      ensures resolveDepth == old(resolveDepth)
      ensures Follows(v, DecodeBody(c, buf, old(pos), k, length, old(objects), old(resolveDepth)))
      decreases CAP + 1 - resolveDepth, Left(buf, pos), 3
    {
      hide DecodeValues, DecodeEntries, SkipVarints, Empty, Trailer;
      var items := ReadItems(if k == DenseKind then length else 0);
      if items.None? {
        return None;
      }
      v := ReadEntriesOf(k, Empty(k, length, items.value));
      if v.None? {
        return None;
      }
      pos := pos + 1;
      var end := ReadTrailer(Trailer(k));
      if !end {
        return None;
      }
    }

    method ReadLength(k: Kind) returns (length: Option<nat>)
      modifies this`pos
      ensures var l := if HasLength(k) then ReadVarint(buf, old(pos)) else Some((0, old(pos)));
        && (length.Some? <==> l.Some?)
        && (length.Some? ==> (length.value, pos) == l.value)
    {
      if HasLength(k) {
        length := ReadNumber();
      } else {
        length := Some(0);
      }
    }

    method ReadTrailer(count: nat) returns (ok: bool)
      modifies this`pos
      ensures ok <==> SkipVarints(buf, old(pos), count).Some?
      ensures ok ==> pos == SkipVarints(buf, old(pos), count).value
    {
      hide ReadVarint;
      var n := count;
      while n > 0
        invariant SkipVarints(buf, pos, n) == SkipVarints(buf, old(pos), count)
      {
        var v := ReadNumber();
        if v.None? {
          return false;
        }
        n := n - 1;
      }
      return true;
    }

    /** `count` values in a row. */
    method ReadItems(count: nat) returns (items: Option<seq<Value>>)
      requires resolveDepth <= CAP + 1 && pos <= |buf|
      modifies this
      ensures resolveDepth == old(resolveDepth)
      ensures Follows(items, DecodeValues(c, buf, old(pos), old(objects), old(resolveDepth), count))
      decreases CAP + 1 - resolveDepth, Left(buf, pos), 1, count
    {
      hide Decode;
      var list: seq<Value> := [];
      ghost var whole := DecodeValues(c, buf, pos, objects, resolveDepth, count);
      assert whole.Ok? ==> list + whole.value == whole.value;
      for i := 0 to count
        invariant resolveDepth == old(resolveDepth) && old(pos) <= pos <= |buf|
        invariant whole == Prepend(list, DecodeValues(c, buf, pos, objects, resolveDepth, count - i))
      {
        var v := ReadValue();
        if v.None? {
          return None;
        }
        PrependOne(list, v.value, DecodeValues(c, buf, pos, objects, resolveDepth, count - i - 1));
        list := list + [v.value];
      }
      assert list + [] == list;
      items := Some(list);
    }

    /** Entries up to the end tag, added to `v` one by one. */
    method ReadEntriesOf(k: Kind, v: Value) returns (whole: Option<Value>)
      requires resolveDepth <= CAP + 1 && pos <= |buf| && Fits(k, v)
      modifies this
      ensures resolveDepth == old(resolveDepth)
      ensures Follows(whole, DecodeEntries(c, buf, old(pos), old(objects), old(resolveDepth), k, v))
      decreases CAP + 1 - resolveDepth, Left(buf, pos), 2
    {
      hide DecodeValues, AddEntry;
      var w := v;
      SkipZeros();
      EntriesAfterPadding(old(pos), objects, resolveDepth, k, v);
      while pos >= |buf| || buf[pos] != Stop(k)
        invariant resolveDepth == old(resolveDepth) && old(pos) <= pos <= |buf| && Fits(k, w) && pos == SkipPadding(buf, pos)
        invariant DecodeEntries(c, buf, pos, objects, resolveDepth, k, w) == DecodeEntries(c, buf, old(pos), old(objects),
                                                                                           resolveDepth, k, v)
        decreases |buf| - pos
      {
        if pos >= |buf| {
          return None;
        }
        var entry := ReadItems(Arity(k));
        if entry.None? {
          return None;
        }
        w := AddEntry(c, k, w, entry.value);
        ghost var next := pos;
        SkipZeros();
        EntriesAfterPadding(next, objects, resolveDepth, k, w);
      }
      whole := Some(w);
    }

    lemma EntriesAfterPadding(at: nat, known: seq<nat>, depth: nat, k: Kind, v: Value)
      requires depth <= CAP + 1 && at <= |buf| && Fits(k, v)
      ensures var p := SkipPadding(buf, at);
        SkipPadding(buf, p) == p && DecodeEntries(c, buf, p, known, depth, k, v) == DecodeEntries(c, buf, at, known, depth, k, v)
    {
      PaddingSkipped(buf, at);
    }
  }

  class TableReader {
    const c: Codecs
    const buf: Bytes
    var pos: nat
    var objects: Table

    constructor (c: Codecs, buf: Bytes)
      ensures this.c == c && this.buf == buf && pos == 0 && objects == []
    {
      this.c, this.buf := c, buf;
      pos, objects := 0, [];
    }

    /** The reader is where `r` says, having read `v`; a failure leaves it anywhere. */
    predicate Follows<T(==)>(v: Option<T>, rank: nat, r: Outcome<T>)
      reads this
    {
      if r.Failed? then v == None else v == Some(r.value) && pos == r.pos && objects == r.table && rank == r.rank
    }

    method SkipZeros()
      modifies this`pos
      ensures pos == SkipPadding(buf, old(pos))
    {
      while pos < |buf| && buf[pos] == 0
        invariant SkipPadding(buf, pos) == SkipPadding(buf, old(pos))
      {
        pos := pos + 1;
      }
    }

    /** One value of any kind; a back-reference is looked up. */
    method ReadValue() returns (v: Option<Value>, rank: nat)
      modifies this
      ensures Follows(v, rank, Read(c, buf, old(pos), old(objects)))
      decreases Left(buf, pos), 0
    {
      hide ReadContainer, Leaf, ReadVarint, ReadBytes;
      SkipZeros();
      var tagPos := pos;
      v, rank := None, 0;
      if pos >= |buf| {
        return;
      }
      var tag := buf[pos];
      pos := pos + 1;
      if tag == 0x5e {
        var id := ReadVarint(buf, pos);
        if id.Some? && id.value.0 < |objects| && objects[id.value.0].done.Some? {
          pos := id.value.1;
          var target := objects[id.value.0].done.value;
          v, rank := Some(target.value), target.rank + 1;
        }
      } else if tag == 0x73 {
        v, rank := ReadValue();
      } else if tag == 0x42 {
        var b := ReadBytes(buf, pos);
        if b.Some? {
          pos := b.value.1;
          objects := objects + [Slot(tagPos, Some(Completed(Buffer(b.value.0), 0)))];
          v := Some(Buffer(b.value.0));
        }
      } else if KindOf(tag).Some? {
        v, rank := ReadContainerOf(tagPos, KindOf(tag).value);
      } else {
        var leaf := Leaf(c, buf, pos, tag);
        if leaf.Some? {
          pos := leaf.value.1;
          v := Some(leaf.value.0);
        }
      }
    }

    /** The container whose tag was just read: its slot is taken on entry and filled when it ends. */
    method ReadContainerOf(tagPos: nat, k: Kind) returns (v: Option<Value>, rank: nat)
      requires tagPos < |buf| && pos == tagPos + 1
      modifies this
      ensures Follows(v, rank, ReadContainer(c, buf, tagPos, k, old(objects)))
      decreases Left(buf, pos), 3
    {
      hide Read, ReadValues, ReadEntries, ReadVarint, SkipVarints, Empty, HasLength, Trailer, AllDone;
      var length := if HasLength(k) then ReadVarint(buf, pos) else Some((0, pos));
      v, rank := None, 0;
      if length.None? {
        return;
      }
      pos := length.value.1;
      var i := |objects|;
      objects := objects + [Slot(tagPos, None)];
      var items, itemsRank := ReadItems(if k == DenseKind then length.value.0 else 0);
      if items.None? {
        return;
      }
      var whole, wholeRank := ReadEntriesOf(k, Empty(k, length.value.0, items.value));
      if whole.None? {
        return;
      }
      var end := SkipVarints(buf, pos + 1, Trailer(k));
      if end.None? {
        return;
      }
      pos := end.value;
      v, rank := whole, Max(itemsRank, wholeRank);
      objects := Complete(objects, i, Completed(whole.value, rank));
    }

    method ReadItems(count: nat) returns (items: Option<seq<Value>>, rank: nat)
      requires pos <= |buf|
      modifies this
      ensures Follows(items, rank, ReadValues(c, buf, old(pos), old(objects), count))
      decreases Left(buf, pos), 1, count
    {
      hide Read, AllDone;
      var list: seq<Value> := [];
      rank := 0;
      ghost var whole := ReadValues(c, buf, pos, objects, count);
      assert whole.Done? ==> list + whole.value == whole.value;
      for i := 0 to count
        invariant old(pos) <= pos <= |buf|
        invariant Same(whole, Behind(list, rank, ReadValues(c, buf, pos, objects, count - i)))
      {
        var v, r := ReadValue();
        if v.None? {
          return None, 0;
        }
        BehindOne(list, rank, v.value, r, ReadValues(c, buf, pos, objects, count - i - 1));
        list, rank := list + [v.value], Max(rank, r);
      }
      assert list + [] == list;
      items := Some(list);
    }

    method ReadEntriesOf(k: Kind, v: Value) returns (whole: Option<Value>, rank: nat)
      requires pos <= |buf| && Fits(k, v)
      modifies this
      ensures Follows(whole, rank, ReadEntries(c, buf, old(pos), old(objects), k, v))
      decreases Left(buf, pos), 2
    {
      hide ReadValues, AddEntry, AllDone;
      var w := v;
      rank := 0;
      ghost var result := ReadEntries(c, buf, pos, objects, k, v);
      SkipZeros();
      EntriesAfterPadding(old(pos), objects, k, v);
      while pos >= |buf| || buf[pos] != Stop(k)
        invariant old(pos) <= pos <= |buf| && Fits(k, w) && pos == SkipPadding(buf, pos)
        invariant Same(result, Deeper(rank, ReadEntries(c, buf, pos, objects, k, w)))
        decreases |buf| - pos
      {
        if pos >= |buf| {
          return None, 0;
        }
        var entry, r := ReadItems(Arity(k));
        if entry.None? {
          return None, 0;
        }
        w := AddEntry(c, k, w, entry.value);
        rank := Max(rank, r);
        ghost var next := pos;
        SkipZeros();
        EntriesAfterPadding(next, objects, k, w);
      }
      whole := Some(w);
    }

    lemma EntriesAfterPadding(at: nat, t: Table, k: Kind, v: Value)
      requires at <= |buf| && Fits(k, v)
      ensures var p := SkipPadding(buf, at); SkipPadding(buf, p) == p && ReadEntries(c, buf, p, t, k, v) == ReadEntries(c, buf, at, t, k, v)
    {
      hide ReadValues, AddEntry;
      PaddingSkipped(buf, at);
    }
  }

  /** Both fail, or both give the same. */
  ghost predicate Same<T(!new)>(a: Outcome<T>, b: Outcome<T>) {
    if a.Failed? then b.Failed? else a == b
  }

  /** A result with references nested at least `rank` deep. */
  ghost function Deeper<T>(rank: nat, r: Outcome<T>): Outcome<T> {
    if r.Failed? then r else Done(r.value, r.pos, r.table, Max(rank, r.rank))
  }

  ghost function Behind(list: seq<Value>, rank: nat, r: Outcome<seq<Value>>): Outcome<seq<Value>> {
    if r.Failed? then r else Done(list + r.value, r.pos, r.table, Max(rank, r.rank))
  }

  lemma BehindOne(list: seq<Value>, rank: nat, v: Value, rank': nat, rest: Outcome<seq<Value>>)
    ensures Behind(list, rank, Behind([v], rank', rest)) == Behind(list + [v], Max(rank, rank'), rest)
  {
    if rest.Done? {
      assert list + ([v] + rest.value) == (list + [v]) + rest.value;
    }
  }

  lemma {:induction false} PaddingSkipped(buf: Bytes, at: nat)
    requires at <= |buf|
    ensures SkipPadding(buf, SkipPadding(buf, at)) == SkipPadding(buf, at)
    decreases |buf| - at
  {
    if at < |buf| && buf[at] == 0 {
      PaddingSkipped(buf, at + 1);
    }
  }

  /** A list read so far, in front of the result of the rest. */
  ghost function Prepend(list: seq<Value>, rest: Result<seq<Value>>): Result<seq<Value>> {
    if rest.Err? then Err else Ok(list + rest.value, rest.pos, rest.objects)
  }

  lemma PrependOne(list: seq<Value>, v: Value, rest: Result<seq<Value>>)
    ensures Prepend(list, Prepend([v], rest)) == Prepend(list + [v], rest)
  {
    if rest.Ok? {
      assert list + ([v] + rest.value) == (list + [v]) + rest.value;
    }
  }
}
