/** The secret scrubber: a list of secret values, longest first, and redaction by one
    substring replacement per secret. */
module Scrubber {
  import opened Sorting
  import opened Text

  const MARK := "[REDACTED]"

  /** The sort key of `sorted(..., key=len, reverse=True)`; equal lengths keep their order. */
  function ByLength(s: string): int { -|s| }

  ghost predicate LongestFirst(secrets: seq<string>) {
    Sorted(secrets, ByLength)
  }

  predicate NonEmpty(secrets: seq<string>) {
    forall i :: 0 <= i < |secrets| ==> secrets[i] != ""
  }

  /** What every published list satisfies (SecretStore and SecretThreads prove that it does). */
  ghost predicate Published(secrets: seq<string>) {
    NonEmpty(secrets) && Distinct(secrets) && LongestFirst(secrets)
  }

  function Scrub(text: string, secrets: seq<string>): string
    requires NonEmpty(secrets)
    decreases |secrets|
  {
    if secrets == [] then text
    else Scrub(Replace(text, secrets[0], MARK), secrets[1..])
  }

  predicate AllClear(secrets: seq<string>) {
    forall i :: 0 <= i < |secrets| ==> Clear(secrets[i], MARK)
  }

  // ----- Completeness

  lemma {:induction false} ScrubBringsNone(text: string, secrets: seq<string>, q: string)
    requires NonEmpty(secrets) && q != "" && Clear(q, MARK)
    requires q in secrets || !Contains(text, q)
    ensures !Contains(Scrub(text, secrets), q)
    decreases |secrets|
  {
    if secrets != [] {
      var p := secrets[0];
      var after := Replace(text, p, MARK);
      if q == p || !Contains(text, q) {
        ReplaceBringsNone(text, p, MARK, q);
      }
      ScrubBringsNone(after, secrets[1..], q);
    }
  }

  /** No text, however its secrets overlap, keeps a registered secret that is clear of the marker. */
  lemma ScrubHidesEverySecret(text: string, secrets: seq<string>)
    requires NonEmpty(secrets) && AllClear(secrets)
    ensures forall s :: s in secrets ==> !Contains(Scrub(text, secrets), s)
  {
    forall s | s in secrets ensures !Contains(Scrub(text, secrets), s) {
      ScrubBringsNone(text, secrets, s);
    }
  }

  lemma {:induction false} ScrubLeavesClean(text: string, secrets: seq<string>)
    requires NonEmpty(secrets)
    requires forall s :: s in secrets ==> !Contains(text, s)
    ensures Scrub(text, secrets) == text
    decreases |secrets|
  {
    if secrets != [] {
      assert secrets[0] in secrets;
      ReplaceAbsent(text, secrets[0], MARK);
      ScrubLeavesClean(text, secrets[1..]);
    }
  }

  /** A second pass (record factory, formatter and filter each make one) adds nothing. */
  lemma ScrubIdempotent(text: string, secrets: seq<string>)
    requires NonEmpty(secrets) && AllClear(secrets)
    ensures Scrub(Scrub(text, secrets), secrets) == Scrub(text, secrets)
  {
    ScrubHidesEverySecret(text, secrets);
    ScrubLeavesClean(Scrub(text, secrets), secrets);
  }

  /** Secrets as they are meant to be (no bracket, not a piece of the word REDACTED) are clear. */
  lemma OrdinarySecretsAreClear(s: string)
    requires s != "" && '[' !in s && ']' !in s && !Contains("REDACTED", s)
    ensures Clear(s, MARK)
  {
    forall k | -|MARK| < k < |s| ensures !Agrees(s, MARK, k) {
      if k >= 0 {
        MarkStartsWithin(s, k);
      } else if |s| - k >= |MARK| {
        MarkEndsWithin(s, k);
      } else {
        MarkAround(s, k);
      }
    }
  }

  lemma MarkStartsWithin(s: string, k: int)
    requires 0 <= k < |s| && '[' !in s
    ensures !Agrees(s, MARK, k)
  {
    assert MARK[k - k] == '[' && s[k] in s;
  }

  lemma MarkEndsWithin(s: string, k: int)
    requires -|MARK| < k < 0 && |s| - k >= |MARK| && ']' !in s
    ensures !Agrees(s, MARK, k)
  {
    var last := |MARK| - 1 + k;
    assert MARK[last - k] == ']' && s[last] in s;
  }

  lemma MarkAround(s: string, k: int)
    requires s != "" && k < 0 && |s| - k < |MARK| && !Contains("REDACTED", s)
    ensures !Agrees(s, MARK, k)
  {
    if Agrees(s, MARK, k) {
      AgreeingIsPiece(s, k);
      assert false;
    }
  }

  lemma AgreeingIsPiece(s: string, k: int)
    requires k < 0 && |s| - k < |MARK| && Agrees(s, MARK, k)
    ensures OccursAt("REDACTED", s, -k - 1)
  {
    var word, at := "REDACTED", -k - 1;
    assert |MARK| == |word| + 2 && forall i :: 0 <= i < |word| ==> MARK[i + 1] == word[i];
    forall x | 0 <= x < |s| ensures s[x] == word[at + x] { assert s[x] == MARK[x - k]; }
    assert word[at..at + |s|] == s;
  }

  /** A secret is hidden from every text, whatever else is or will be registered with it. */
  ghost predicate AlwaysHidden(s: string) {
    forall text: string, secrets: seq<string> ::
      Published(secrets) && s in secrets ==> !Contains(Scrub(text, secrets), s)
  }

  /** The exact condition, and one that can be checked when a secret is registered. */
  lemma HiddenExactlyWhenClear(s: string)
    requires s != ""
    ensures AlwaysHidden(s) <==> Clear(s, MARK)
  {
    if Clear(s, MARK) {
      forall text: string, secrets: seq<string> | Published(secrets) && s in secrets
        ensures !Contains(Scrub(text, secrets), s)
      {
        ScrubBringsNone(text, secrets, s);
      }
    } else {
      var text, secrets := Exposure(s);
    }
  }

  /** A secret that touches the marker is exposed: a second secret, replaced after it, leaves a
      marker next to text that completes the first one. */
  lemma Exposure(s: string) returns (text: string, secrets: seq<string>)
    requires s != "" && !Clear(s, MARK)
    ensures Published(secrets) && s in secrets && Contains(Scrub(text, secrets), s)
  {
    var left, right := Overlap(s, MARK);
    assert 'x' !in MARK && 'y' !in MARK;
    var q := SecondPattern(s, MARK, left, right, 'x', 'y');
    text, secrets := s[..left] + q + s[right..], [s, q];
    assert secrets[1..] == [q];
    assert Scrub(text, secrets) == Scrub(text, [q]) == Replace(text, q, MARK);
  }
}
