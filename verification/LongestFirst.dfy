/** Why the secret list is kept longest first: where the occurrences of secrets in a text are
    pairwise disjoint or nested, the passes over the list amount to masking every maximal
    occurrence by one marker. */
module LongestFirst {
  import opened Scrubber
  import opened Text

  // ----- The reference: positions of the input, no passes, no order on the secrets

  ghost predicate Occurrence(t: string, secrets: set<string>, s: string, i: int) {
    s in secrets && OccursAt(t, s, i)
  }

  predicate DisjointOrNested(i: int, m: nat, j: int, n: nat) {
    i + m <= j || j + n <= i || (i <= j && j + n <= i + m) || (j <= i && i + m <= j + n)
  }

  ghost predicate Crossing(t: string, secrets: set<string>, s: string, i: int, s': string, j: int) {
    Occurrence(t, secrets, s, i) && Occurrence(t, secrets, s', j) && !DisjointOrNested(i, |s|, j, |s'|)
  }

  ghost predicate Laminar(t: string, secrets: set<string>) {
    forall s, i, s', j :: !Crossing(t, secrets, s, i, s', j)
  }

  ghost predicate Covered(t: string, secrets: set<string>, k: int) {
    exists s, i :: Occurrence(t, secrets, s, i) && i <= k < i + |s|
  }

  /** An occurrence that lies in no longer one. */
  ghost predicate Maximal(t: string, secrets: set<string>, s: string, i: int) {
    && Occurrence(t, secrets, s, i)
    && forall s', j :: Occurrence(t, secrets, s', j) && j <= i && i + |s| <= j + |s'| ==> |s'| <= |s|
  }

  /** One marker where a maximal occurrence starts, nothing for the other characters of an
      occurrence, every other character as it is. */
  ghost function MaskFrom(t: string, secrets: set<string>, k: nat): string
    requires k <= |t|
    decreases |t| - k
  {
    if k == |t| then ""
    else (if exists s :: Maximal(t, secrets, s, k) then MARK else if Covered(t, secrets, k) then "" else [t[k]])
         + MaskFrom(t, secrets, k + 1)
  }

  ghost function Masked(t: string, secrets: set<string>): string {
    MaskFrom(t, secrets, 0)
  }

  ghost function Members(secrets: seq<string>): set<string> {
    set s | s in secrets
  }

  // ----- A single pass that takes the first secret of the list matching at each place

  function FirstMatch(t: string, secrets: seq<string>): (s: string)
    ensures s <= t && (s != "" ==> s in secrets)
  {
    if secrets == [] then "" else if secrets[0] <= t then secrets[0] else FirstMatch(t, secrets[1..])
  }

  function OnePass(t: string, secrets: seq<string>): string
    decreases |t|
  {
    if t == "" then ""
    else
      var s := FirstMatch(t, secrets);
      if s != "" then MARK + OnePass(t[|s|..], secrets) else [t[0]] + OnePass(t[1..], secrets)
  }

  lemma {:induction false} FirstMatchIsLongest(t: string, secrets: seq<string>)
    requires NonEmpty(secrets) && LongestFirst(secrets)
    ensures forall s :: s in secrets && s <= t ==> |s| <= |FirstMatch(t, secrets)|
    ensures FirstMatch(t, secrets) == "" <==> forall s :: s in secrets ==> !(s <= t)
  {
    if secrets != [] {
      var p := secrets[0];
      forall s | s in secrets ensures |s| <= |p| {
        var i :| 0 <= i < |secrets| && secrets[i] == s;
        assert ByLength(secrets[0]) <= ByLength(secrets[i]);
      }
      if p <= t { assert p in secrets; } else { FirstMatchIsLongest(t, secrets[1..]); }
    }
  }

  // ----- The passes amount to the single pass

  /** What a list matches at the head after a pass, it matched at the head before. */
  lemma {:induction false} MatchKept(t: string, p: string, secrets: seq<string>, r: string)
    requires p != "" && NonEmpty(secrets) && AllClear(secrets)
    requires r == Replace(t, p, MARK)
    requires FirstMatch(t, secrets) <= r
    ensures FirstMatch(r, secrets) == FirstMatch(t, secrets)
  {
    if secrets != [] {
      var s := secrets[0];
      if s <= r {
        assert s[0..] == s;
        HeadWasThere(t, p, MARK, s, 0);
      } else if !(s <= t) {
        MatchKept(t, p, secrets[1..], r);
      }
    }
  }

  /** The single pass steps over an inserted marker. */
  lemma {:induction false} StepsOverMark(k: nat, rest: string, secrets: seq<string>)
    requires k <= |MARK| && NonEmpty(secrets) && AllClear(secrets)
    ensures OnePass(MARK[k..] + rest, secrets) == MARK[k..] + OnePass(rest, secrets)
    decreases |MARK| - k
  {
    if k == |MARK| {
      assert MARK[k..] + rest == rest;
    } else {
      var c, m := MARK[k], MARK[k + 1..];
      assert MARK[k..] == [c] + m;
      NoMatchInMark(k, rest, secrets);
      StepsOverMark(k + 1, rest, secrets);
      StepOver(c, m, rest, secrets);
    }
  }

  lemma StepOver(c: char, m: string, rest: string, secrets: seq<string>)
    requires FirstMatch(([c] + m) + rest, secrets) == ""
    requires OnePass(m + rest, secrets) == m + OnePass(rest, secrets)
    ensures OnePass(([c] + m) + rest, secrets) == ([c] + m) + OnePass(rest, secrets)
  {
    Reassociate([c], m, rest);
    assert (([c] + m) + rest)[1..] == m + rest;
    Reassociate([c], m, OnePass(rest, secrets));
  }

  lemma NoMatchInMark(k: nat, rest: string, secrets: seq<string>)
    requires k < |MARK| && NonEmpty(secrets) && AllClear(secrets)
    ensures FirstMatch(MARK[k..] + rest, secrets) == ""
  {
    var t := MARK[k..] + rest;
    var s := FirstMatch(t, secrets);
    if s != "" {
      NotInMarker(s, MARK, k, MARK + rest);
      assert (MARK + rest)[k..] == t;
      HeadOccurs(MARK + rest, s, k);
    }
  }

  lemma HeadOccurs(t: string, s: string, k: nat)
    requires k <= |t|
    ensures s <= t[k..] <==> OccursAt(t, s, k)
  {
    if k + |s| <= |t| { assert t[k..][..|s|] == t[k..k + |s|]; }
  }

  lemma LaminarSuffix(t: string, secrets: set<string>, n: nat)
    requires n <= |t| && Laminar(t, secrets)
    ensures Laminar(t[n..], secrets)
  {
    forall s, i, s', j ensures !Crossing(t[n..], secrets, s, i, s', j) {
      assert !Crossing(t, secrets, s, i + n, s', j + n);
      OccursInSuffix(t, s, n, i);
      OccursInSuffix(t, s', n, j);
    }
  }

  lemma OccursInSuffix(t: string, s: string, n: nat, i: int)
    requires n <= |t|
    ensures OccursAt(t[n..], s, i) ==> OccursAt(t, s, i + n)
  {
    if 0 <= i && i + n + |s| <= |t| { assert t[n..][i..i + |s|] == t[i + n..i + n + |s|]; }
  }

  /** Taking the longest secret out of the list and replacing it first changes nothing. */
  lemma {:induction false} PassFirst(t: string, secrets: seq<string>)
    requires secrets != [] && NonEmpty(secrets) && LongestFirst(secrets) && AllClear(secrets)
    requires Laminar(t, Members(secrets))
    ensures OnePass(t, secrets) == OnePass(Replace(t, secrets[0], MARK), secrets[1..])
    decreases |t|
  {
    hide OnePass, Replace, FirstMatch, Laminar, AllClear, LongestFirst;
    var p, s := secrets[0], FirstMatch(t, secrets);
    if t == "" {
      BothEmpty(secrets);
    } else if p <= t {
      LaminarSuffix(t, Members(secrets), |p|);
      PassFirst(t[|p|..], secrets);
      MatchesFirst(t, secrets);
    } else {
      var n := if s == "" then 1 else |s|;
      KeepsHead(t, secrets, n);
      LaminarSuffix(t, Members(secrets), n);
      PassFirst(t[n..], secrets);
      MatchesLater(t, secrets, n);
    }
  }

  lemma BothEmpty(secrets: seq<string>)
    requires secrets != [] && secrets[0] != ""
    ensures OnePass("", secrets) == "" && OnePass(Replace("", secrets[0], MARK), secrets[1..]) == ""
  {
  }

  lemma MatchesFirst(t: string, secrets: seq<string>)
    requires secrets != [] && NonEmpty(secrets) && AllClear(secrets) && secrets[0] <= t
    requires OnePass(t[|secrets[0]|..], secrets) == OnePass(Replace(t[|secrets[0]|..], secrets[0], MARK), secrets[1..])
    ensures OnePass(t, secrets) == OnePass(Replace(t, secrets[0], MARK), secrets[1..])
  {
    var p := secrets[0];
    assert FirstMatch(t, secrets) == p;
    StepsOverMark(0, Replace(t[|p|..], p, MARK), secrets[1..]);
    assert MARK[0..] == MARK;
  }

  lemma MatchesLater(t: string, secrets: seq<string>, n: nat)
    requires secrets != [] && NonEmpty(secrets) && AllClear(secrets) && t != "" && !(secrets[0] <= t)
    requires n == if FirstMatch(t, secrets) == "" then 1 else |FirstMatch(t, secrets)|
    requires Replace(t, secrets[0], MARK) == t[..n] + Replace(t[n..], secrets[0], MARK)
    requires OnePass(t[n..], secrets) == OnePass(Replace(t[n..], secrets[0], MARK), secrets[1..])
    ensures OnePass(t, secrets) == OnePass(Replace(t, secrets[0], MARK), secrets[1..])
  {
    var p, rest, s := secrets[0], secrets[1..], FirstMatch(t, secrets);
    var r, r' := Replace(t, p, MARK), Replace(t[n..], p, MARK);
    assert s == FirstMatch(t, rest);
    assert s <= r by { assert s <= t[..n]; }
    MatchKept(t, p, rest, r);
    hide Replace, FirstMatch;
    assert r[n..] == r' && r != "" && r[0] == t[0];
    assert OnePass(r, rest) == (if s != "" then MARK else [t[0]]) + OnePass(r', rest);
    assert OnePass(t, secrets) == (if s != "" then MARK else [t[0]]) + OnePass(t[n..], secrets);
  }

  /** Under a matching secret, the longer one cannot start: the pass leaves the match alone. */
  lemma KeepsHead(t: string, secrets: seq<string>, n: nat)
    requires secrets != [] && NonEmpty(secrets) && LongestFirst(secrets)
    requires Laminar(t, Members(secrets))
    requires t != "" && !(secrets[0] <= t)
    requires n == if FirstMatch(t, secrets) == "" then 1 else |FirstMatch(t, secrets)|
    ensures Replace(t, secrets[0], MARK) == t[..n] + Replace(t[n..], secrets[0], MARK)
  {
    var p, s := secrets[0], FirstMatch(t, secrets);
    assert t == t[..n] + t[n..];
    forall j | 0 <= j < n ensures !OccursAt(t[..n] + t[n..], p, j) {
      if j > 0 { NotUnderMatch(t, secrets, s, j); }
    }
    NothingBefore(t[..n], t[n..], p, MARK);
  }

  lemma NotUnderMatch(t: string, secrets: seq<string>, s: string, j: nat)
    requires LongestFirst(secrets) && Laminar(t, Members(secrets))
    requires s in secrets && s <= t && 0 < j < |s|
    ensures !OccursAt(t, secrets[0], j)
  {
    var i :| 0 <= i < |secrets| && secrets[i] == s;
    assert ByLength(secrets[0]) <= ByLength(secrets[i]);
    assert !Crossing(t, Members(secrets), s, 0, secrets[0], j);
  }

  // ----- A pass keeps the occurrences of the other secrets disjoint or nested

  /** Two crossing occurrences after a pass were crossing before it: their union is clear of the marker. */
  lemma LaminarKept(t: string, p: string, secrets: set<string>)
    requires p != "" && (forall s :: s in secrets ==> s != "" && Clear(s, MARK))
    requires Laminar(t, secrets)
    ensures Laminar(Replace(t, p, MARK), secrets)
  {
    var r := Replace(t, p, MARK);
    forall s, i, s', j ensures !Crossing(r, secrets, s, i, s', j) {
      if Occurrence(r, secrets, s, i) && Occurrence(r, secrets, s', j) {
        if i < j < i + |s| < j + |s'| {
          CrossingWasThere(t, p, secrets, s, i, s', j);
        } else if j < i < j + |s'| < i + |s| {
          CrossingWasThere(t, p, secrets, s', j, s, i);
        }
      }
    }
  }

  lemma CrossingWasThere(t: string, p: string, secrets: set<string>, s: string, i: int, s': string, j: int)
    requires p != "" && Clear(s, MARK) && Clear(s', MARK)
    requires Occurrence(Replace(t, p, MARK), secrets, s, i) && Occurrence(Replace(t, p, MARK), secrets, s', j)
    requires i < j < i + |s| < j + |s'|
    ensures exists a, b :: Crossing(t, secrets, s, a, s', b)
  {
    var r := Replace(t, p, MARK);
    var u, d := r[i..j + |s'|], j - i;
    assert u[..|s|] == s && u[d..] == s';
    UnionClear(u, s, s', d);
    assert OccursAt(r, u, i);
    assert Contains(t, u) by { if !Contains(t, u) { ReplaceBringsNone(t, p, MARK, u); } }
    var a :| OccursAt(t, u, a);
    assert t[a..a + |s|] == u[..|s|] && t[a + d..a + d + |s'|] == u[d..];
    assert Crossing(t, secrets, s, a, s', a + d);
  }

  lemma UnionClear(u: string, s: string, s': string, d: nat)
    requires d < |s| <= |u| && |u| == d + |s'| && u[..|s|] == s && u[d..] == s'
    requires Clear(s, MARK) && Clear(s', MARK)
    ensures Clear(u, MARK)
  {
    forall k | -|MARK| < k < |u| ensures !Agrees(u, MARK, k) {
      if k < |s| {
        assert !Agrees(s, MARK, k);
        var i :| 0 <= i < |s| && 0 <= i - k < |MARK| && s[i] != MARK[i - k];
        assert u[i] == s[i];
      } else {
        assert !Agrees(s', MARK, k - d);
        var i :| 0 <= i < |s'| && 0 <= i - (k - d) < |MARK| && s'[i] != MARK[i - (k - d)];
        assert u[i + d] == s'[i];
      }
    }
  }

  lemma {:induction false} PassesAreOnePass(t: string, secrets: seq<string>)
    requires NonEmpty(secrets) && LongestFirst(secrets) && AllClear(secrets)
    requires Laminar(t, Members(secrets))
    ensures Scrub(t, secrets) == OnePass(t, secrets)
    decreases |secrets|
  {
    if secrets == [] {
      NoSecrets(t);
    } else {
      PassFirst(t, secrets);
      var p, rest := secrets[0], secrets[1..];
      assert Members(rest) <= Members(secrets);
      assert Laminar(t, Members(rest)) by {
        forall s, i, s', j ensures !Crossing(t, Members(rest), s, i, s', j) {
          assert !Crossing(t, Members(secrets), s, i, s', j);
        }
      }
      LaminarKept(t, p, Members(rest));
      PassesAreOnePass(Replace(t, p, MARK), rest);
    }
  }

  lemma {:induction false} NoSecrets(t: string)
    ensures OnePass(t, []) == t
    decreases |t|
  {
    if t != "" { NoSecrets(t[1..]); }
  }

  // ----- The single pass is the mask

  /** Position k cuts no occurrence in two. */
  ghost predicate Spans(t: string, secrets: set<string>, s: string, i: int, k: int) {
    Occurrence(t, secrets, s, i) && i < k < i + |s|
  }

  ghost predicate Boundary(t: string, secrets: set<string>, k: int) {
    forall s, i :: !Spans(t, secrets, s, i, k)
  }

  lemma {:induction false} OnePassIsMask(t: string, secrets: seq<string>, k: nat)
    requires NonEmpty(secrets) && LongestFirst(secrets) && Laminar(t, Members(secrets))
    requires k <= |t| && Boundary(t, Members(secrets), k)
    ensures OnePass(t[k..], secrets) == MaskFrom(t, Members(secrets), k)
    decreases |t| - k
  {
    hide OnePass, MaskFrom;
    if k == |t| {
      BothEnd(t, secrets);
    } else {
      var piece, n := SameStep(t, secrets, k);
      OnePassIsMask(t, secrets, k + n);
    }
  }

  lemma BothEnd(t: string, secrets: seq<string>)
    ensures OnePass(t[|t|..], secrets) == "" && MaskFrom(t, Members(secrets), |t|) == ""
  {
  }

  lemma SameStep(t: string, secrets: seq<string>, k: nat) returns (piece: string, n: nat)
    requires NonEmpty(secrets) && LongestFirst(secrets) && Laminar(t, Members(secrets))
    requires k < |t| && Boundary(t, Members(secrets), k)
    ensures 0 < n && k + n <= |t| && Boundary(t, Members(secrets), k + n)
    ensures OnePass(t[k..], secrets) == piece + OnePass(t[k + n..], secrets)
    ensures MaskFrom(t, Members(secrets), k) == piece + MaskFrom(t, Members(secrets), k + n)
  {
    hide OnePass, MaskFrom;
    var s := OnePassStep(t, secrets, k);
    if s != "" {
      piece, n := MARK, |s|;
      MatchMasked(t, Members(secrets), s, k);
    } else {
      piece, n := [t[k]], 1;
      NoMatchKept(t, Members(secrets), k);
    }
  }

  /** The single pass takes the longest occurrence that starts here. */
  lemma OnePassStep(t: string, secrets: seq<string>, k: nat) returns (s: string)
    requires NonEmpty(secrets) && LongestFirst(secrets) && k < |t|
    ensures s != "" ==> Occurrence(t, Members(secrets), s, k)
    ensures forall x :: Occurrence(t, Members(secrets), x, k) ==> 0 < |x| <= |s|
    ensures s != "" ==> OnePass(t[k..], secrets) == MARK + OnePass(t[k + |s|..], secrets)
    ensures s == "" ==> OnePass(t[k..], secrets) == [t[k]] + OnePass(t[k + 1..], secrets)
  {
    var u := t[k..];
    s := FirstMatch(u, secrets);
    assert u[|s|..] == t[k + |s|..] && u[1..] == t[k + 1..];
    FirstMatchIsLongest(u, secrets);
    HeadOccurs(t, s, k);
    forall x | Occurrence(t, Members(secrets), x, k) ensures 0 < |x| <= |s| {
      HeadOccurs(t, x, k);
    }
  }

  lemma MatchMasked(t: string, secrets: set<string>, s: string, k: nat)
    requires k < |t| && Laminar(t, secrets) && Boundary(t, secrets, k) && Occurrence(t, secrets, s, k)
    requires forall x :: Occurrence(t, secrets, x, k) ==> 0 < |x| <= |s|
    ensures Boundary(t, secrets, k + |s|)
    ensures MaskFrom(t, secrets, k) == MARK + MaskFrom(t, secrets, k + |s|)
  {
    MatchIsMaximal(t, secrets, s, k);
    MaskSkips(t, secrets, s, k, k + 1);
  }

  lemma NoMatchKept(t: string, secrets: set<string>, k: nat)
    requires k < |t| && Boundary(t, secrets, k)
    requires forall x :: Occurrence(t, secrets, x, k) ==> 0 < |x| <= 0
    ensures Boundary(t, secrets, k + 1)
    ensures MaskFrom(t, secrets, k) == [t[k]] + MaskFrom(t, secrets, k + 1)
  {
    NoMatchUncovered(t, secrets, k);
  }

  lemma MatchIsMaximal(t: string, secrets: set<string>, s: string, k: nat)
    requires Laminar(t, secrets) && Boundary(t, secrets, k) && Occurrence(t, secrets, s, k)
    requires forall x :: Occurrence(t, secrets, x, k) ==> 0 < |x| <= |s|
    ensures Maximal(t, secrets, s, k) && Boundary(t, secrets, k + |s|)
  {
    var end := k + |s|;
    forall x, i ensures !Spans(t, secrets, x, i, end) {
      assert !Crossing(t, secrets, x, i, s, k) && !Spans(t, secrets, x, i, k);
      assert i == k && Occurrence(t, secrets, x, i) ==> Occurrence(t, secrets, x, k);
    }
    forall x, i | Occurrence(t, secrets, x, i) && i <= k && k + |s| <= i + |x| ensures |x| <= |s| {
      assert !Spans(t, secrets, x, i, k);
    }
  }

  lemma NoMatchUncovered(t: string, secrets: set<string>, k: nat)
    requires Boundary(t, secrets, k)
    requires forall x :: !Occurrence(t, secrets, x, k)
    ensures !Covered(t, secrets, k) && Boundary(t, secrets, k + 1)
    ensures forall x :: !Maximal(t, secrets, x, k)
  {
    forall x, i ensures !Spans(t, secrets, x, i, k + 1) && !(Occurrence(t, secrets, x, i) && i <= k < i + |x|) {
      assert !Spans(t, secrets, x, i, k);
      assert i == k ==> !Occurrence(t, secrets, x, i);
    }
  }

  lemma {:induction false} MaskSkips(t: string, secrets: set<string>, s: string, i: nat, k: nat)
    requires Laminar(t, secrets) && Maximal(t, secrets, s, i) && i < k <= i + |s|
    ensures MaskFrom(t, secrets, k) == MaskFrom(t, secrets, i + |s|)
    decreases i + |s| - k
  {
    if k < i + |s| {
      assert Covered(t, secrets, k);
      forall x ensures !Maximal(t, secrets, x, k) {
        assert !Crossing(t, secrets, s, i, x, k);
      }
      MaskSkips(t, secrets, s, i, k + 1);
    }
  }

  /** The main result: every maximal occurrence becomes one marker and nothing else changes. */
  lemma ScrubMasksMaximalOccurrences(t: string, secrets: seq<string>)
    requires NonEmpty(secrets) && LongestFirst(secrets) && AllClear(secrets)
    requires Laminar(t, Members(secrets))
    ensures Scrub(t, secrets) == Masked(t, Members(secrets))
  {
    PassesAreOnePass(t, secrets);
    OnePassIsMask(t, secrets, 0);
    assert t[0..] == t;
  }

  /** Hence the order in which equally long secrets were registered does not matter. */
  lemma OrderOfEqualLengthsIrrelevant(t: string, a: seq<string>, b: seq<string>)
    requires NonEmpty(a) && LongestFirst(a) && AllClear(a) && Laminar(t, Members(a))
    requires NonEmpty(b) && LongestFirst(b) && multiset(a) == multiset(b)
    ensures Scrub(t, a) == Scrub(t, b)
  {
    forall s ensures s in a <==> s in b { assert s in multiset(a) <==> s in multiset(b); }
    assert Members(a) == Members(b);
    forall i | 0 <= i < |b| ensures Clear(b[i], MARK) { assert b[i] in a; }
    ScrubMasksMaximalOccurrences(t, a);
    ScrubMasksMaximalOccurrences(t, b);
  }

  /** The end of s is the beginning of s'. */
  predicate Overlaps(s: string, s': string, k: int) {
    0 < k < |s| && k < |s'| && s[|s| - k..] == s'[..k]
  }

  ghost predicate OverlapFree(secrets: set<string>) {
    forall s, s', k :: s in secrets && s' in secrets ==> !Overlaps(s, s', k)
  }

  /** The condition on the text holds for every text exactly when no secret's end is a secret's
      beginning, which can be checked when a secret is registered. */
  lemma LaminarExactlyWhenOverlapFree(secrets: set<string>)
    ensures (forall t :: Laminar(t, secrets)) <==> OverlapFree(secrets)
  {
    hide Laminar;
    if OverlapFree(secrets) {
      forall t ensures Laminar(t, secrets) { OverlapFreeIsLaminar(t, secrets); }
    } else {
      var s, s', k :| s in secrets && s' in secrets && Overlaps(s, s', k);
      OverlapCrosses(secrets, s, s', k);
    }
  }

  lemma OverlapCrosses(secrets: set<string>, s: string, s': string, k: int)
    requires s in secrets && s' in secrets && Overlaps(s, s', k)
    ensures !Laminar(s + s'[k..], secrets)
  {
    CrossingOccurs(s, s', k);
    assert Crossing(s + s'[k..], secrets, s, 0, s', |s| - k);
  }

  lemma OverlapFreeIsLaminar(t: string, secrets: set<string>)
    requires OverlapFree(secrets)
    ensures Laminar(t, secrets)
  {
    forall s, i, s', j ensures !Crossing(t, secrets, s, i, s', j) {
      if Occurrence(t, secrets, s, i) && Occurrence(t, secrets, s', j) {
        if i < j < i + |s| < j + |s'| {
          CrossersOverlap(t, s, i, s', j);
        } else if j < i < j + |s'| < i + |s| {
          CrossersOverlap(t, s', j, s, i);
        }
      }
    }
  }

  lemma CrossersOverlap(t: string, s: string, i: int, s': string, j: int)
    requires OccursAt(t, s, i) && OccursAt(t, s', j) && i < j < i + |s| < j + |s'|
    ensures Overlaps(s, s', i + |s| - j)
  {
    var k := i + |s| - j;
    forall x | 0 <= x < k ensures s[|s| - k + x] == s'[x] {
      assert t[i..i + |s|][j - i + x] == t[j + x] == t[j..j + |s'|][x];
    }
    assert s[|s| - k..] == s'[..k];
  }

  /** Where occurrences cross, the mask is not reached even longest first: of a secret whose head is
      taken by the one before it, the tail stays. */
  lemma CrossingLeaksTail(s: string, s': string, k: nat)
    requires Overlaps(s, s', k) && |s'| <= |s|
    requires Clear(s, MARK) && Clear(s', MARK)
    ensures OccursAt(s + s'[k..], s, 0) && OccursAt(s + s'[k..], s', |s| - k)
    ensures Scrub(s + s'[k..], [s, s']) == MARK + s'[k..]
  {
    hide Replace, Clear, Contains, Scrub;
    CrossingOccurs(s, s', k);
    TakesHead(s, s'[k..]);
    KeepsTail(s'[k..], s');
    TwoPasses(s + s'[k..], s, s');
  }

  lemma CrossingOccurs(s: string, s': string, k: nat)
    requires Overlaps(s, s', k)
    ensures OccursAt(s + s'[k..], s, 0) && OccursAt(s + s'[k..], s', |s| - k)
  {
    var text, at := s + s'[k..], |s| - k;
    assert text[..|s|] == s;
    forall x | 0 <= x < |s'| ensures text[at + x] == s'[x] {
      assert x < k ==> s[at..][x] == s'[..k][x];
    }
    assert text[at..at + |s'|] == s';
  }

  lemma TakesHead(s: string, tail: string)
    requires |tail| < |s|
    ensures Replace(s + tail, s, MARK) == MARK + tail
  {
    assert (s + tail)[..|s|] == s && (s + tail)[|s|..] == tail;
    TooShort(tail, s);
    ReplaceAbsent(tail, s, MARK);
  }

  lemma KeepsTail(tail: string, p: string)
    requires |tail| < |p| && Clear(p, MARK)
    ensures Replace(MARK + tail, p, MARK) == MARK + tail
  {
    hide Replace, Clear;
    TooShort(tail, p);
    forall i | 0 <= i < |MARK| ensures !OccursAt(MARK + tail, p, i) { NotInMarker(p, MARK, i, MARK + tail); }
    NoneInConcat(MARK, tail, p);
    ReplaceAbsent(MARK + tail, p, MARK);
  }

  lemma TooShort(t: string, p: string)
    requires |t| < |p|
    ensures !Contains(t, p)
  {
  }

  /** Shortest first, the tail of a longer secret stays in plain text. */
  lemma ShortestFirstLeaksTail()
    ensures Scrub("abc", ["abc", "ab"]) == MARK
    ensures Scrub("abc", ["ab", "abc"]) == MARK + "c"
  {
    var long, short: string := "abc", "ab";
    Untouched("", long);
    Untouched("c", short);
    assert Replace(long, long, MARK) == MARK by { assert long[3..] == ""; }
    assert Replace(long, short, MARK) == MARK + "c" by { assert long[2..] == "c"; }
    Untouched(MARK, short);
    Untouched(MARK + "c", long);
    TwoPasses(long, long, short);
    TwoPasses(long, short, long);
  }

  lemma TwoPasses(t: string, p: string, q: string)
    requires p != "" && q != ""
    ensures Scrub(t, [p, q]) == Replace(Replace(t, p, MARK), q, MARK)
  {
    assert [p, q][1..] == [q];
    var u := Replace(t, p, MARK);
    assert Scrub(u, [q]) == Scrub(Replace(u, q, MARK), [q][1..]);
  }

  lemma Untouched(t: string, p: string)
    requires p != "" && p[0] !in t
    ensures Replace(t, p, MARK) == t
  {
    forall i ensures !OccursAt(t, p, i) {
      if 0 <= i <= |t| - |p| { assert t[i..i + |p|][0] == t[i]; }
    }
    ReplaceAbsent(t, p, MARK);
  }
}
