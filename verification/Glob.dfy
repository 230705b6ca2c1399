/** Store-name patterns: `*` is the only wildcard, matched greedily, leftmost segment first. */
module Globs {
  import opened Base

  /** `pat.split('*')`: one more segment than stars. */
  function Split(pat: string): (segs: seq<string>)
    ensures |segs| > 0
  {
    if pat == "" then [""]
    else
      var rest := Split(pat[1..]);
      if pat[0] == '*' then [""] + rest else [[pat[0]] + rest[0]] + rest[1..]
  }

  /** The segments with the stars between them replaced by `fills`, in order. */
  function Fill(segs: seq<string>, fills: seq<string>): string
    requires |segs| == |fills| + 1
  {
    if fills == [] then segs[0] else segs[0] + fills[0] + Fill(segs[1..], fills[1..])
  }

  /** Some assignment of substrings to the stars makes the pattern equal to `s`. */
  ghost predicate Matches(pat: string, s: string) {
    exists fills: seq<string> :: |fills| + 1 == |Split(pat)| && Fill(Split(pat), fills) == s
  }

  function Stars(n: nat): seq<string> {
    seq(n, i => "*")
  }

  lemma {:induction false} NoStar(pat: string)
    ensures forall seg :: seg in Split(pat) ==> '*' !in seg
  {
    if pat != "" {
      NoStar(pat[1..]);
      var rest := Split(pat[1..]);
      assert rest[0] in rest && forall seg :: seg in rest[1..] ==> seg in rest;
    }
  }

  /** Splitting loses nothing: filling the gaps with stars gives the pattern back, and no segment has a star. */
  lemma {:induction false} SplitExact(pat: string)
    ensures Fill(Split(pat), Stars(|Split(pat)| - 1)) == pat
    ensures forall seg :: seg in Split(pat) ==> '*' !in seg
  {
    NoStar(pat);
    if pat != "" {
      SplitExact(pat[1..]);
      var rest, segs := Split(pat[1..]), Split(pat);
      var stars := Stars(|segs| - 1);
      assert pat == [pat[0]] + pat[1..];
      if pat[0] == '*' {
        assert segs[1..] == rest && stars[1..] == Stars(|rest| - 1);
        assert segs[0] + stars[0] == "*";
      } else if |rest| > 1 {
        assert segs[1..] == rest[1..] && stars == Stars(|rest| - 1);
      }
    }
  }

  // ---- the matcher ----

  predicate At(s: string, seg: string, i: nat) {
    i + |seg| <= |s| && s[i..i + |seg|] == seg
  }

  /** `s[from..].find(seg)`, as an index into `s`. */
  function Find(s: string, seg: string, from: nat): (r: Option<nat>)
    requires from <= |s|
    ensures r.Some? ==> from <= r.value && At(s, seg, r.value) && forall j :: from <= j < r.value ==> !At(s, seg, j)
    ensures r.None? ==> forall j :: from <= j ==> !At(s, seg, j)
    decreases |s| - from
  {
    if At(s, seg, from) then Some(from)
    else if from == |s| then None
    else Find(s, seg, from + 1)
  }

  /** The middle segments in turn at their first occurrence, then the last one at the very end. */
  predicate Greedy(segs: seq<string>, s: string, idx: nat)
    requires |segs| > 0 && idx <= |s|
  {
    if |segs| == 1 then |s| >= idx + |segs[0]| && At(s, segs[0], |s| - |segs[0]|)
    else
      var k := Find(s, segs[0], idx);
      k.Some? && Greedy(segs[1..], s, k.value + |segs[0]|)
  }

  /** The segments stand in `s` from `idx` on, in order, without overlap, the last one at the end. */
  ghost predicate Placed(segs: seq<string>, s: string, idx: nat)
    requires |segs| > 0 && idx <= |s|
  {
    if |segs| == 1 then idx + |segs[0]| <= |s| && At(s, segs[0], |s| - |segs[0]|)
    else exists i :: idx <= i && At(s, segs[0], i) && Placed(segs[1..], s, i + |segs[0]|)
  }

  /** A placement from a later start is one from an earlier start. */
  lemma PlacedEarlier(segs: seq<string>, s: string, idx: nat, later: nat)
    requires |segs| > 0 && idx <= later <= |s| && Placed(segs, s, later)
    ensures Placed(segs, s, idx)
  {
  }

  /** The exchange argument: moving a segment to its first occurrence leaves more room for the others. */
  lemma {:induction false} GreedyIsPlaced(segs: seq<string>, s: string, idx: nat)
    requires |segs| > 0 && idx <= |s|
    ensures Greedy(segs, s, idx) <==> Placed(segs, s, idx)
  {
    if |segs| > 1 {
      var k := Find(s, segs[0], idx);
      if k.Some? {
        GreedyIsPlaced(segs[1..], s, k.value + |segs[0]|);
      }
      if Placed(segs, s, idx) {
        var i :| idx <= i && At(s, segs[0], i) && Placed(segs[1..], s, i + |segs[0]|);
        PlacedEarlier(segs[1..], s, k.value + |segs[0]|, i + |segs[0]|);
      }
    }
  }

  /** A placement is a filling: the text between the segments. */
  lemma {:induction false} PlacedFills(segs: seq<string>, s: string, idx: nat) returns (fills: seq<string>)
    requires |segs| > 0 && idx <= |s| && Placed(segs, s, idx)
    ensures |fills| == |segs| && FillFrom(segs, fills) == s[idx..]
  {
    if |segs| == 1 {
      fills := [s[idx..|s| - |segs[0]|]];
      assert FillFrom(segs, fills) == fills[0] + segs[0] + "";
    } else {
      var i :| idx <= i && At(s, segs[0], i) && Placed(segs[1..], s, i + |segs[0]|);
      var rest := PlacedFills(segs[1..], s, i + |segs[0]|);
      fills := [s[idx..i]] + rest;
      assert fills[1..] == rest;
      assert s[idx..] == s[idx..i] + segs[0] + s[i + |segs[0]|..];
    }
  }

  /** A filling is a placement. */
  lemma {:induction false} FillsPlaced(segs: seq<string>, fills: seq<string>, s: string, idx: nat)
    requires |segs| > 0 && idx <= |s| && |fills| == |segs| && FillFrom(segs, fills) == s[idx..]
    ensures Placed(segs, s, idx)
  {
    var i, n := idx + |fills[0]|, |segs[0]|;
    var tail := FillFrom(segs[1..], fills[1..]);
    assert s[idx..] == fills[0] + segs[0] + tail;
    Parts(s, idx, fills[0], segs[0], tail);
    if |segs| == 1 {
      assert tail == "";
    } else {
      FillsPlaced(segs[1..], fills[1..], s, i + n);
    }
  }

  lemma Parts(s: string, idx: nat, a: string, b: string, c: string)
    requires idx <= |s| && s[idx..] == a + b + c
    ensures At(s, b, idx + |a|) && s[idx + |a| + |b|..] == c
  {
    assert s[idx + |a|..idx + |a| + |b|] == s[idx..][|a|..|a| + |b|];
    assert s[idx + |a| + |b|..] == s[idx..][|a| + |b|..];
  }

  /** Each segment behind its filling. */
  function FillFrom(segs: seq<string>, fills: seq<string>): string
    requires |segs| == |fills|
  {
    if segs == [] then "" else fills[0] + segs[0] + FillFrom(segs[1..], fills[1..])
  }

  lemma {:induction false} FillIsFillFrom(segs: seq<string>, fills: seq<string>)
    requires |segs| == |fills| + 1
    ensures Fill(segs, fills) == segs[0] + FillFrom(segs[1..], fills)
  {
    if fills == [] {
      assert segs[0] + "" == segs[0];
    } else {
      FillIsFillFrom(segs[1..], fills[1..]);
      assert segs[0] + fills[0] + (segs[1] + FillFrom(segs[2..],
                                                      fills[1..])) == segs[0] + (fills[0] + segs[1] + FillFrom(segs[2..], fills[1..]));
      assert segs[1..][1..] == segs[2..];
    }
  }

  /** What the matcher answers: the first segment at the start, the others greedily. */
  predicate Accepts(pat: string, s: string) {
    var segs := Split(pat);
    if |segs| == 1 then pat == s else segs[0] <= s && Greedy(segs[1..], s, |segs[0]|)
  }

  /** Main result: the greedy matcher accepts exactly the strings some filling of the stars gives. */
  lemma GreedyMatches(pat: string, s: string)
    ensures Accepts(pat, s) <==> Matches(pat, s)
  {
    var segs := Split(pat);
    SplitExact(pat);
    if |segs| == 1 {
      assert Stars(0) == [];
      assert forall fills: seq<string> :: |fills| + 1 == |segs| ==> fills == [];
    } else {
      if segs[0] <= s {
        GreedyIsPlaced(segs[1..], s, |segs[0]|);
      }
      if Accepts(pat, s) {
        var fills := PlacedFills(segs[1..], s, |segs[0]|);
        FillIsFillFrom(segs, fills);
        assert s == segs[0] + s[|segs[0]|..];
      }
      if fills: seq<string> :| |fills| + 1 == |segs| && Fill(segs, fills) == s {
        FillIsFillFrom(segs, fills);
        assert s[|segs[0]|..] == FillFrom(segs[1..], fills);
        FillsPlaced(segs[1..], fills, s, |segs[0]|);
      }
    }
  }

  method FindFrom(s: string, seg: string, from: nat) returns (r: Option<nat>)
    requires from <= |s|
    ensures r == Find(s, seg, from)
  {
    var i := from;
    while !At(s, seg, i)
      invariant from <= i <= |s| && Find(s, seg, i) == Find(s, seg, from)
      decreases |s| - i
    {
      if i == |s| {
        return None;
      }
      i := i + 1;
    }
    r := Some(i);
  }

  /** The matcher: `idx` advances past each middle segment's first occurrence. */
  method Glob(pat: string, s: string) returns (ok: bool)
    ensures ok <==> Matches(pat, s)
  {
    hide Matches, Greedy;
    GreedyMatches(pat, s);
    var segs := Split(pat);
    if |segs| == 1 {
      return pat == s;
    }
    if segs[0] != "" && !(segs[0] <= s) {
      return false;
    }
    ok := MatchRest(segs, s, |segs[0]|);
  }

  /** The loop over the middle segments, then the end test. */
  method MatchRest(segs: seq<string>, s: string, start: nat) returns (ok: bool)
    requires |segs| > 1 && start <= |s|
    ensures ok <==> Greedy(segs[1..], s, start)
  {
    var n := |segs|;
    var idx: nat := start;
    for i := 1 to n - 1
      invariant idx <= |s| && (Greedy(segs[i..], s, idx) <==> Greedy(segs[1..], s, start))
    {
      assert segs[i..][1..] == segs[i + 1..] && segs[i..][0] == segs[i];
      if segs[i] == "" {
        assert At(s, "", idx);
        continue;
      }
      var k := FindFrom(s, segs[i], idx);
      if k.None? {
        return false;
      }
      idx := k.value + |segs[i]|;
    }
    var last := segs[n - 1];
    assert segs[n - 1..] == [last];
    ok := last == "" || (|s| >= idx + |last| && At(s, last, |s| - |last|));
  }
}
