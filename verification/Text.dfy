/** Occurrences of a pattern in a text, Python's str.replace, and the question the
    scrubber, the prompt envelope and the .env quoting all depend on: can an inserted
    marker take part in a new occurrence of a pattern? */
module Text {

  predicate OccursAt(s: string, p: string, i: int) {
    0 <= i <= |s| - |p| && s[i..i + |p|] == p
  }

  ghost predicate Contains(s: string, p: string) {
    exists i :: OccursAt(s, p, i)
  }

  /** str.replace for a non-empty pattern: leftmost, non-overlapping. */
  function Replace(s: string, p: string, m: string): string
    requires p != ""
    decreases |s|
  {
    if p <= s then m + Replace(s[|p|..], p, m)
    else if s == "" then ""
    else [s[0]] + Replace(s[1..], p, m)
  }

  method ReplaceAll(s: string, p: string, m: string) returns (r: string)
    requires p != ""
    ensures r == Replace(s, p, m)
  {
    r := "";
    var i := 0;
    while i < |s|
      invariant 0 <= i <= |s|
      invariant Replace(s, p, m) == r + Replace(s[i..], p, m)
    {
      hide Replace;
      var found := i + |p| <= |s| && s[i..i + |p|] == p;
      var piece, next := if found then m else [s[i]], if found then i + |p| else i + 1;
      ReplaceStep(s, p, m, i, next);
      Reassociate(r, piece, Replace(s[next..], p, m));
      r, i := r + piece, next;
    }
  }

  lemma ReplaceStep(s: string, p: string, m: string, i: nat, next: nat)
    requires p != "" && i < |s| && next == (if OccursAt(s, p, i) then i + |p| else i + 1)
    ensures Replace(s[i..], p, m) == (if OccursAt(s, p, i) then m else [s[i]]) + Replace(s[next..], p, m)
  {
    var t := s[i..];
    assert OccursAt(s, p, i) <==> p <= t;
    assert t[next - i..] == s[next..];
  }

  /** A one-character pattern is replaced character by character. */
  lemma ReplaceChar(x: char, t: string, c: char, m: string)
    ensures Replace([x] + t, [c], m) == (if x == c then m else [x]) + Replace(t, [c], m)
  {
    var s := [x] + t;
    assert s[1..] == t && s[|[c]|..] == t;
    assert s[0] == x && [c][0] == c;
    assert x == c ==> s[..1] == [c];
  }

  // ----- Replace against an independent definition: cut at the leftmost occurrences, rejoin

  function Join(frags: seq<string>, m: string): string
    requires frags != []
  {
    if |frags| == 1 then frags[0] else frags[0] + m + Join(frags[1..], m)
  }

  lemma JoinOne(a: string, m: string)
    ensures Join([a], m) == a
  {
  }

  lemma JoinCons(a: string, rest: seq<string>, m: string)
    requires rest != []
    ensures Join([a] + rest, m) == a + m + Join(rest, m)
  {
    assert ([a] + rest)[1..] == rest;
  }

  /** The text cut at every occurrence of `p`, always at the leftmost one that is left. */
  ghost predicate LeftmostSplit(frags: seq<string>, p: string)
    requires p != ""
  {
    && frags != []
    && (forall i :: 0 <= i < |frags| - 1 ==> !Contains(frags[i] + p[..|p| - 1], p))
    && !Contains(frags[|frags| - 1], p)
  }

  ghost predicate SplitsFor(frags: seq<string>, s: string, p: string, m: string)
    requires p != ""
  {
    LeftmostSplit(frags, p) && Join(frags, p) == s && Join(frags, m) == Replace(s, p, m)
  }

  lemma {:induction false} ReplaceIsSplitAndJoin(s: string, p: string, m: string) returns (frags: seq<string>)
    requires p != ""
    ensures LeftmostSplit(frags, p)
    ensures Join(frags, p) == s
    ensures Join(frags, m) == Replace(s, p, m)
  {
    frags := Fragments(s, p, m);
  }

  lemma {:induction false} Fragments(s: string, p: string, m: string) returns (frags: seq<string>)
    requires p != ""
    ensures SplitsFor(frags, s, p, m)
    decreases |s|
  {
    hide SplitsFor;
    if p <= s {
      var rest := Fragments(s[|p|..], p, m);
      frags := [""] + rest;
      AddEmptyHead(s, rest, p, m);
    } else if s == "" {
      frags := [""];
      NothingToCut(p, m);
    } else {
      var rest := Fragments(s[1..], p, m);
      SplitNotEmpty(rest, s[1..], p, m);
      frags := [[s[0]] + rest[0]] + rest[1..];
      AddToHead(s, rest, p, m);
    }
  }

  lemma SplitNotEmpty(frags: seq<string>, s: string, p: string, m: string)
    requires p != "" && SplitsFor(frags, s, p, m)
    ensures frags != []
  {
  }

  lemma AddEmptyHead(s: string, rest: seq<string>, p: string, m: string)
    requires p != "" && p <= s && SplitsFor(rest, s[|p|..], p, m)
    ensures SplitsFor([""] + rest, s, p, m)
  {
    CutAtHead(rest, p);
    hide Contains, LeftmostSplit;
    SplitNotEmpty(rest, s[|p|..], p, m);
    JoinCons("", rest, p);
    JoinCons("", rest, m);
    hide Join;
    assert "" + p == p && "" + m == m && p + s[|p|..] == s;
  }

  lemma AddToHead(s: string, rest: seq<string>, p: string, m: string)
    requires p != "" && s != "" && !(p <= s) && rest != [] && SplitsFor(rest, s[1..], p, m)
    ensures SplitsFor([[s[0]] + rest[0]] + rest[1..], s, p, m)
  {
    ExtendHead(s, rest, p);
    hide Contains, LeftmostSplit;
    JoinHead(s[0], rest, p);
    JoinHead(s[0], rest, m);
  }

  lemma NothingToCut(p: string, m: string)
    requires p != ""
    ensures SplitsFor([""], "", p, m)
  {
  }

  lemma CutAtHead(rest: seq<string>, p: string)
    requires p != "" && LeftmostSplit(rest, p)
    ensures LeftmostSplit([""] + rest, p)
  {
    var frags := [""] + rest;
    assert "" + p[..|p| - 1] == p[..|p| - 1];
    forall i | 0 <= i < |frags| - 1 ensures !Contains(frags[i] + p[..|p| - 1], p) {
      if i > 0 { assert frags[i] == rest[i - 1]; }
    }
  }

  lemma ExtendHead(s: string, rest: seq<string>, p: string)
    requires p != "" && s != "" && !(p <= s)
    requires LeftmostSplit(rest, p) && Join(rest, p) == s[1..]
    ensures LeftmostSplit([[s[0]] + rest[0]] + rest[1..], p)
  {
    var frags := [[s[0]] + rest[0]] + rest[1..];
    assert forall i :: 0 < i < |frags| ==> frags[i] == rest[i];
    if |rest| == 1 {
      StillNone(s, rest[0], p);
    } else {
      var back := rest[0] + p[..|p| - 1];
      assert back <= s[1..] by {
        assert s[1..] == rest[0] + p + Join(rest[1..], p);
        assert rest[0] + p == back + p[|p| - 1..];
      }
      StillNone(s, back, p);
      assert [s[0]] + back == frags[0] + p[..|p| - 1];
    }
  }

  lemma StillNone(s: string, back: string, p: string)
    requires p != "" && s != "" && !(p <= s)
    requires back <= s[1..] && !Contains(back, p)
    ensures !Contains([s[0]] + back, p)
  {
    var whole := [s[0]] + back;
    forall i ensures !OccursAt(whole, p, i) {
      assert whole <= s;
      assert i > 0 && OccursAt(whole, p, i) ==> OccursAt(back, p, i - 1);
    }
  }

  lemma JoinHead(c: char, frags: seq<string>, m: string)
    requires frags != []
    ensures Join([[c] + frags[0]] + frags[1..], m) == [c] + Join(frags, m)
  {
    if |frags| > 1 {
      assert ([[c] + frags[0]] + frags[1..])[1..] == frags[1..];
    }
  }

  /** A text has only one leftmost split, so the previous lemma determines Replace. */
  lemma {:induction false} LeftmostSplitUnique(a: seq<string>, b: seq<string>, p: string)
    requires p != "" && LeftmostSplit(a, p) && LeftmostSplit(b, p)
    requires Join(a, p) == Join(b, p)
    ensures a == b
  {
    if |a| > 1 { FirstCut(a, p); }
    if |b| > 1 { FirstCut(b, p); }
    if |a| > 1 && |b| > 1 {
      var s := Join(a, p);
      assert |a[0]| == |b[0]|;
      assert a[0] == s[..|a[0]|] == b[0];
      assert Join(a[1..], p) == s[|a[0]| + |p|..] == Join(b[1..], p);
      assert LeftmostSplit(a[1..], p) by {
        forall i | 0 <= i < |a[1..]| - 1 ensures !Contains(a[1..][i] + p[..|p| - 1], p) { assert a[1..][i] == a[i + 1]; }
      }
      assert LeftmostSplit(b[1..], p) by {
        forall i | 0 <= i < |b[1..]| - 1 ensures !Contains(b[1..][i] + p[..|p| - 1], p) { assert b[1..][i] == b[i + 1]; }
      }
      LeftmostSplitUnique(a[1..], b[1..], p);
      assert a == [a[0]] + a[1..] && b == [b[0]] + b[1..];
    }
  }

  lemma FirstCut(a: seq<string>, p: string)
    requires p != "" && LeftmostSplit(a, p) && |a| > 1
    ensures OccursAt(Join(a, p), p, |a[0]|)
    ensures forall i :: OccursAt(Join(a, p), p, i) ==> |a[0]| <= i
  {
    var s := Join(a, p);
    assert s == a[0] + p + Join(a[1..], p);
    var piece := a[0] + p[..|p| - 1];
    assert s[..|piece|] == piece;
    forall i ensures OccursAt(s, p, i) ==> |a[0]| <= i {
      assert !OccursAt(piece, p, i);
      OccursInPrefix(s, piece, p, i);
    }
  }

  lemma OccursInPrefix(s: string, head: string, p: string, i: int)
    requires head <= s
    ensures OccursAt(s, p, i) && i + |p| <= |head| ==> OccursAt(head, p, i)
  {
    if 0 <= i && i + |p| <= |head| { assert head[i..i + |p|] == s[..|head|][i..i + |p|] == s[i..i + |p|]; }
  }

  // ----- Absent patterns

  lemma {:induction false} ReplaceAbsent(s: string, p: string, m: string)
    requires p != "" && !Contains(s, p)
    ensures Replace(s, p, m) == s
    decreases |s|
  {
    assert !(p <= s) by { assert !OccursAt(s, p, 0); }
    if s != "" {
      NoneInSuffix(s, p, 1);
      ReplaceAbsent(s[1..], p, m);
      assert [s[0]] + s[1..] == s;
    }
  }

  /** A part of a text without `p` has no `p` either. */
  lemma ContainsTransitive(s: string, t: string, p: string)
    requires Contains(s, t) && Contains(t, p)
    ensures Contains(s, p)
  {
    var i :| OccursAt(s, t, i);
    var j :| OccursAt(t, p, j);
    forall x | 0 <= x < |p| ensures p[x] == s[i + j + x] {
      assert p[x] == t[j..j + |p|][x] == t[j + x] == s[i..i + |t|][j + x];
    }
    assert OccursAt(s, p, i + j);
  }

  /** Replacing a pattern that occurs puts the marker into the text. */
  lemma {:induction false} ReplaceBringsSome(s: string, p: string, m: string)
    requires p != "" && Contains(s, p)
    ensures Contains(Replace(s, p, m), m)
    decreases |s|
  {
    if p <= s {
      assert OccursAt(Replace(s, p, m), m, 0);
    } else {
      var i :| OccursAt(s, p, i);
      OccursInTail(s, p, i);
      ReplaceBringsSome(s[1..], p, m);
      var j :| OccursAt(Replace(s[1..], p, m), m, j);
      OccursLater(s[0], Replace(s[1..], p, m), m, j);
    }
  }

  lemma OccursInTail(s: string, p: string, i: int)
    requires OccursAt(s, p, i) && p != "" && !(p <= s)
    ensures s != "" && OccursAt(s[1..], p, i - 1)
  {
    assert i == 0 ==> p <= s;
    assert s == [s[0]] + s[1..];
    if i > 0 { OccursLater(s[0], s[1..], p, i - 1); }
  }

  // ----- Markers that cannot help to build a pattern

  /** With the marker laid over `q`, its first character at offset `k` of `q` (negative: the
      marker starts earlier), the two agree wherever they overlap. */
  predicate Agrees(q: string, m: string, k: int) {
    forall i :: 0 <= i < |q| && 0 <= i - k < |m| ==> q[i] == m[i - k]
  }

  /** No placement of the marker that touches `q` agrees with `q`. */
  predicate Clear(q: string, m: string) {
    forall k :: -|m| < k < |q| ==> !Agrees(q, m, k)
  }

  lemma AgreesAtHead(q: string, m: string, a: nat, r: string)
    requires a <= |q| && q[a..] <= r && m <= r
    ensures Agrees(q, m, a)
  {
    forall i | 0 <= i < |q| && 0 <= i - a < |m| ensures q[i] == m[i - a] {
      assert q[i] == q[a..][i - a] == r[i - a];
    }
  }

  /** What reads as a piece of `q` at the head of the result was there in the input. */
  lemma {:induction false} HeadWasThere(s: string, p: string, m: string, q: string, a: nat)
    requires p != "" && a <= |q|
    requires forall k :: a <= k < |q| ==> !Agrees(q, m, k)
    requires q[a..] <= Replace(s, p, m)
    ensures q[a..] <= s
    decreases |q| - a
  {
    if a < |q| {
      var r := Replace(s, p, m);
      if p <= s {
        AgreesAtHead(q, m, a, r);
      } else {
        assert s != "";
        assert q[a + 1..] == q[a..][1..];
        assert Replace(s[1..], p, m) == r[1..];
        HeadWasThere(s[1..], p, m, q, a + 1);
        assert q[a..] == [q[a]] + q[a + 1..] <= [s[0]] + s[1..] == s;
      }
    }
  }

  /** Replacing any pattern by a marker that is clear of `q` brings no `q` about; replacing
      `q` itself leaves none. */
  lemma {:induction false} ReplaceBringsNone(s: string, p: string, m: string, q: string)
    requires p != "" && q != "" && m != "" && Clear(q, m)
    requires q == p || !Contains(s, q)
    ensures !Contains(Replace(s, p, m), q)
    decreases |s|
  {
    NotAtHead(s, p, m, q);
    if p <= s {
      var tail := Replace(s[|p|..], p, m);
      NoneInSuffix(s, q, |p|);
      ReplaceBringsNone(s[|p|..], p, m, q);
      forall i | 0 <= i < |m| ensures !OccursAt(m + tail, q, i) { NotInMarker(q, m, i, m + tail); }
      NoneInConcat(m, tail, q);
    } else if s != "" {
      NoneInSuffix(s, q, 1);
      ReplaceBringsNone(s[1..], p, m, q);
      NoneInConcat([s[0]], Replace(s[1..], p, m), q);
    }
  }

  lemma NoneInConcat(head: string, tail: string, q: string)
    requires !Contains(tail, q)
    requires forall i :: 0 <= i < |head| ==> !OccursAt(head + tail, q, i)
    ensures !Contains(head + tail, q)
  {
    forall i ensures !OccursAt(head + tail, q, i) {
      if |head| <= i <= |head + tail| - |q| {
        assert !OccursAt(tail, q, i - |head|);
        assert (head + tail)[i..i + |q|] == tail[i - |head|..i - |head| + |q|];
      }
    }
  }

  lemma NotAtHead(s: string, p: string, m: string, q: string)
    requires p != "" && q != "" && m != "" && Clear(q, m)
    requires q == p || !Contains(s, q)
    ensures !(q <= Replace(s, p, m))
  {
    var r := Replace(s, p, m);
    if q <= r {
      HeadWasThere(s, p, m, q, 0);
      assert OccursAt(s, q, 0);
      AgreesAtHead(q, m, 0, r);
    }
  }

  lemma NotInMarker(q: string, m: string, i: nat, r: string)
    requires q != "" && i < |m| && m <= r && Clear(q, m)
    ensures !OccursAt(r, q, i)
  {
    var k: int := 0 - i;
    assert !Agrees(q, m, k);
    var x :| 0 <= x < |q| && 0 <= x + i < |m| && q[x] != m[x + i];
    assert r[x + i] == m[x + i];
    assert i + |q| <= |r| ==> r[i..i + |q|][x] == r[x + i];
  }

  lemma NoneInSuffix(s: string, q: string, n: nat)
    requires n <= |s|
    ensures !Contains(s, q) ==> !Contains(s[n..], q)
  {
    if i :| OccursAt(s[n..], q, i) {
      assert OccursAt(s, q, n + i);
    }
  }

  /** Replacing `p` by `r` and back again gives the text back exactly when the text had no
      `r` of its own. */
  lemma {:induction false} ReplaceRoundTrip(s: string, p: string, r: string)
    requires p != "" && r != "" && Clear(r, p)
    requires forall k :: 0 < k < |r| ==> !Agrees(r, r, k)
    ensures Replace(Replace(s, p, r), r, p) == s <==> !Contains(s, r)
  {
    ReplaceBringsNone(Replace(s, p, r), r, p, r);
    if !Contains(s, r) {
      ReplaceBack(s, p, r);
    }
  }

  lemma StartsWithOccurs(s: string, r: string)
    requires s != "" && r != "" && s[0] == r[0] && r[1..] <= s[1..]
    ensures OccursAt(s, r, 0)
  {
    assert r == [r[0]] + r[1..];
  }

  lemma {:induction false} ReplaceBack(s: string, p: string, r: string)
    requires p != "" && r != ""
    requires forall k :: 0 < k < |r| ==> !Agrees(r, r, k)
    requires !Contains(s, r)
    ensures Replace(Replace(s, p, r), r, p) == s
    decreases |s|
  {
    var t := Replace(s, p, r);
    if p <= s {
      NoneInSuffix(s, r, |p|);
      ReplaceBack(s[|p|..], p, r);
      assert r <= t && t[|r|..] == Replace(s[|p|..], p, r);
    } else if s != "" {
      NoneInSuffix(s, r, 1);
      ReplaceBack(s[1..], p, r);
      assert t[1..] == Replace(s[1..], p, r);
      if r <= t {
        assert r[1..] <= t[1..];
        HeadWasThere(s[1..], p, r, r, 1);
        StartsWithOccurs(s, r);
      }
    }
  }

  // ----- Markers that can: how text around a marker completes a pattern

  /** Where the marker can be laid over `s`, the ends of `s` around it are what the marker completes. */
  lemma Overlap(s: string, m: string) returns (left: nat, right: nat)
    requires s != "" && m != "" && !Clear(s, m)
    ensures left < right <= |s| && s[left] in m
    ensures Contains(s[..left] + m + s[right..], s)
  {
    var k: int :| -|m| < k < |s| && Agrees(s, m, k);
    left := if k > 0 then k else 0;
    right := if k + |m| < |s| then k + |m| else |s|;
    assert left < right && s[left] == m[left - k];
    Completed(s, m, k, left, right);
  }

  lemma Completed(s: string, m: string, k: int, left: nat, right: nat)
    requires -|m| < k < |s| && Agrees(s, m, k)
    requires left == if k > 0 then k else 0
    requires right == if k + |m| < |s| then k + |m| else |s|
    ensures Contains(s[..left] + m + s[right..], s)
  {
    var out, at := s[..left] + m + s[right..], left - k;
    assert at + |s| <= |out|;
    forall i | 0 <= i < |s| ensures s[i] == out[at + i] {
      if left <= i < right { assert s[i] == m[i - k]; }
    }
    assert out[at..at + |s|] == s;
    assert OccursAt(out, s, at);
  }

  /** A second pattern, no longer than `s` and made of letters foreign to the marker, whose
      replacement puts the marker exactly there. */
  lemma SecondPattern(s: string, m: string, left: nat, right: nat, b: char, c: char) returns (q: string)
    requires left < right <= |s| && s[left] in m
    requires b != c && b !in m && c !in m
    ensures q != "" && q != s && |q| <= |s|
    ensures Replace(s[..left] + q + s[right..], s, m) == s[..left] + q + s[right..]
    ensures Replace(s[..left] + q + s[right..], q, m) == s[..left] + m + s[right..]
  {
    var x, w, y := s[..left], s[left..right], s[right..];
    var n := |x| + |y| + 1;
    var d := if x != "" && x[|x| - 1] == b then c else b;
    q := Repeat(d, n);
    assert q[left] == d;
    FindsBlock(x, y, q, m, n, d);
    assert !Contains(x + q + y, s) by {
      assert s == x + w + y;
      PassesBy(x, w, y, q, n, d);
    }
    ReplaceAbsent(x + q + y, s, m);
  }

  function Repeat(c: char, n: nat): (r: string)
    ensures |r| == n && forall i :: 0 <= i < n ==> r[i] == c
  {
    if n == 0 then "" else [c] + Repeat(c, n - 1)
  }

  lemma PassesBy(x: string, w: string, y: string, q: string, n: nat, b: char)
    requires w != "" && w[0] != b && n == |x| + |y| + 1
    requires |q| == n && forall i :: 0 <= i < n ==> q[i] == b
    ensures !Contains(x + q + y, x + w + y)
  {
    var s, text := x + w + y, x + q + y;
    forall j ensures !OccursAt(text, s, j) {
      if 0 <= j <= |text| - |s| {
        assert text[j + |x|] == q[j];
        assert s[|x|] == w[0];
        assert text[j..j + |s|][|x|] == text[j + |x|];
      }
    }
  }

  lemma FindsBlock(x: string, y: string, q: string, m: string, n: nat, b: char)
    requires n == |x| + |y| + 1 && (x == "" || x[|x| - 1] != b)
    requires |q| == n && forall i :: 0 <= i < n ==> q[i] == b
    ensures Replace(x + q + y, q, m) == x + m + y
  {
    Reassociate(x, q, y);
    forall i | 0 <= i < |x| ensures !OccursAt(x + (q + y), q, i) { NotBeforeBlock(x, y, q, i, b); }
    NothingBefore(x, q + y, q, m);
    assert Replace(q + y, q, m) == m + y by {
      assert (q + y)[n..] == y;
      assert !Contains(y, q);
      ReplaceAbsent(y, q, m);
    }
    Reassociate(x, m, y);
  }

  lemma NotBeforeBlock(x: string, y: string, q: string, i: nat, b: char)
    requires i < |x| < |q| && x[|x| - 1] != b
    requires forall j :: 0 <= j < |q| ==> q[j] == b
    ensures !OccursAt(x + q + y, q, i)
  {
    var text, k := x + q + y, |x| - 1 - i;
    assert q[k] == b;
    assert text[i + k] == x[|x| - 1];
    if i + |q| <= |text| { assert text[i..i + |q|][k] == text[i + k]; }
  }

  lemma {:induction false} NothingBefore(x: string, rest: string, q: string, m: string)
    requires q != ""
    requires forall i :: 0 <= i < |x| ==> !OccursAt(x + rest, q, i)
    ensures Replace(x + rest, q, m) == x + Replace(rest, q, m)
  {
    if x == "" {
      assert x + rest == rest;
    } else {
      var c, x' := x[0], x[1..];
      assert x == [c] + x';
      Reassociate([c], x', rest);
      forall i | 0 <= i < |x'| ensures !OccursAt(x' + rest, q, i) {
        assert !OccursAt(x + rest, q, i + 1);
        OccursLater(c, x' + rest, q, i);
      }
      NothingBefore(x', rest, q, m);
      ReplaceAfter(c, x' + rest, q, m);
      Reassociate([c], x', Replace(rest, q, m));
    }
  }

  lemma ReplaceAfter(c: char, t: string, q: string, m: string)
    requires q != "" && !OccursAt([c] + t, q, 0)
    ensures Replace([c] + t, q, m) == [c] + Replace(t, q, m)
  {
    assert ([c] + t)[1..] == t;
  }

  lemma OccursLater(c: char, t: string, q: string, i: nat)
    ensures OccursAt([c] + t, q, i + 1) <==> OccursAt(t, q, i)
  {
    if i + |q| <= |t| { assert ([c] + t)[i + 1..i + 1 + |q|] == t[i..i + |q|]; }
  }

  lemma Reassociate<T>(a: seq<T>, b: seq<T>, c: seq<T>)
    ensures (a + b) + c == a + (b + c)
  {
  }
}
