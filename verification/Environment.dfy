/** Process environments and the string operations around them: strip, lower, suffixes and splitting. */
module Environment {
  import opened Text

  const TOKEN_NAME := "TELEGRAM_BOT_TOKEN"
  const IDS_NAME := "ALLOWED_TELEGRAM_CHAT_IDS"

  /** os.environ in its own order; names are unique in a dictionary, and the first entry wins here. */
  type Environ = seq<(string, string)>

  /** os.environ.get(name, ""): every caller treats a missing and an empty value alike. */
  function Get(env: Environ, name: string): string {
    if env == [] then "" else if env[0].0 == name then env[0].1 else Get(env[1..], name)
  }

  /** The value of the first entry under the name. */
  lemma {:induction false} GetFindsFirst(env: Environ, name: string, i: nat)
    requires i < |env| && env[i].0 == name && forall j :: 0 <= j < i ==> env[j].0 != name
    ensures Get(env, name) == env[i].1
  {
    if i > 0 {
      assert env[0].0 != name;
      assert forall j :: 0 <= j < i ==> env[1..][j] == env[j + 1];
      GetFindsFirst(env[1..], name, i - 1);
    }
  }

  lemma {:induction false} GetWithout(env: Environ, name: string)
    requires forall i :: 0 <= i < |env| ==> env[i].0 != name
    ensures Get(env, name) == ""
  {
    if env != [] {
      assert forall i :: 0 <= i < |env| - 1 ==> env[1..][i] == env[i + 1];
      GetWithout(env[1..], name);
    }
  }

  predicate EndsWith(s: string, suffix: string) {
    |suffix| <= |s| && s[|s| - |suffix|..] == suffix
  }

  lemma EndsWithExactly(s: string, suffix: string)
    ensures EndsWith(s, suffix) <==> exists p :: s == p + suffix
  {
    if EndsWith(s, suffix) { assert s == s[..|s| - |suffix|] + suffix; }
    if p :| s == p + suffix { assert s[|p|..] == suffix; }
  }

  /** The characters str.strip() removes. */
  predicate IsSpace(c: char) {
    || '\t' <= c <= '\r' || '\U{1C}' <= c <= ' ' || c == '\U{85}' || c == '\U{A0}' || c == '\U{1680}'
    || '\U{2000}' <= c <= '\U{200A}' || c == '\U{2028}' || c == '\U{2029}' || c == '\U{202F}' || c == '\U{205F}'
    || c == '\U{3000}'
  }

  /** The code points that Python takes for white space. */
  lemma SpacesExactly(c: char)
    ensures IsSpace(c) <==>
              c as int in [9, 10, 11, 12, 13, 28, 29, 30, 31, 32, 0x85, 0xA0, 0x1680, 0x2000, 0x2001, 0x2002, 0x2003, 0x2004, 0x2005,
                           0x2006, 0x2007, 0x2008, 0x2009, 0x200A, 0x2028, 0x2029, 0x202F, 0x205F, 0x3000]
  {
  }

  function LStrip(s: string): (r: string)
    ensures |r| <= |s| && r == s[|s| - |r|..]
    ensures forall i :: 0 <= i < |s| - |r| ==> IsSpace(s[i])
    ensures r != "" ==> !IsSpace(r[0])
  {
    hide IsSpace;
    if s != "" && IsSpace(s[0]) then LStrip(s[1..]) else s
  }

  function RStrip(s: string): (r: string)
    ensures |r| <= |s| && r == s[..|r|]
    ensures forall i :: |r| <= i < |s| ==> IsSpace(s[i])
    ensures r != "" ==> !IsSpace(r[|r| - 1])
  {
    hide IsSpace;
    if s != "" && IsSpace(s[|s| - 1]) then RStrip(s[..|s| - 1]) else s
  }

  function Strip(s: string): string {
    RStrip(LStrip(s))
  }

  predicate Stripped(s: string) {
    s == "" || (!IsSpace(s[0]) && !IsSpace(s[|s| - 1]))
  }

  /** Stripping takes spaces, and only spaces, off both ends. */
  lemma StripTakesSpaces(s: string) returns (i: nat, j: nat)
    ensures i <= j <= |s| && Strip(s) == s[i..j] && Stripped(Strip(s))
    ensures forall k :: 0 <= k < i || j <= k < |s| ==> IsSpace(s[k])
  {
    hide IsSpace, LStrip, RStrip;
    var l, r := LStrip(s), RStrip(LStrip(s));
    i := |s| - |l|;
    j := i + |r|;
    assert l == s[i..];
    assert r == l[..|r|] == s[i..j];
    forall k | j <= k < |s| ensures IsSpace(s[k]) { assert l[k - i] == s[k]; }
    assert r != "" ==> r[0] == l[0];
  }

  lemma StripIsPiece(s: string)
    ensures Stripped(Strip(s))
    ensures Stripped(s) ==> Strip(s) == s
    ensures Contains(s, Strip(s))
  {
    hide IsSpace, LStrip, RStrip;
    var l := LStrip(s);
    var r := Strip(s);
    var i := |s| - |l|;
    assert r == l[..|r|] == s[i..i + |r|];
    assert OccursAt(s, r, i);
  }

  // ----- str.lower, over ASCII letters

  function LowerChar(c: char): char {
    if 'A' <= c <= 'Z' then c + ' ' else c
  }

  /** By code point: the 26 capitals move by 32, everything else stays. */
  lemma LowerCharExactly(c: char)
    ensures LowerChar(c) as int == c as int + if 65 <= c as int <= 90 then 32 else 0
  {
  }

  function Lower(s: string): (r: string)
    ensures |r| == |s| && forall i :: 0 <= i < |s| ==> r[i] == LowerChar(s[i])
  {
    if s == "" then "" else [LowerChar(s[0])] + Lower(s[1..])
  }

  // ----- str.split with a one-character separator

  function SplitOn(s: string, c: char): (r: seq<string>)
    ensures r != []
    decreases |s|
  {
    var n := Until(s, c);
    if n == |s| then [s] else [s[..n]] + SplitOn(s[n + 1..], c)
  }

  function Until(s: string, c: char): (n: nat)
    ensures n <= |s| && c !in s[..n] && (n < |s| ==> s[n] == c)
  {
    if s == "" || s[0] == c then 0 else 1 + Until(s[1..], c)
  }

  /** Splitting cuts at every separator: rejoined with it the segments give the text back, and no
      segment holds one. */
  lemma {:induction false} SplitOnMeaning(s: string, c: char)
    ensures Join(SplitOn(s, c), [c]) == s
    ensures forall i :: 0 <= i < |SplitOn(s, c)| ==> c !in SplitOn(s, c)[i]
    decreases |s|
  {
    hide Join;
    var n := Until(s, c);
    if n == |s| {
      JoinOne(s, [c]);
      assert s[..n] == s;
    } else {
      var head, tail := s[..n], s[n + 1..];
      SplitOnMeaning(tail, c);
      hide SplitOn;
      JoinCons(head, SplitOn(tail, c), [c]);
      assert s == head + [c] + tail;
    }
  }

  lemma {:induction false} UntilAt(s: string, c: char, k: nat)
    requires k <= |s| && c !in s[..k] && (k < |s| ==> s[k] == c)
    ensures Until(s, c) == k
  {
    if k > 0 {
      assert s[0] in s[..k];
      assert s[..k] == [s[0]] + s[1..][..k - 1];
      UntilAt(s[1..], c, k - 1);
    }
  }

  lemma {:induction false} UntilAtMost(s: string, c: char, k: nat)
    requires k < |s| && s[k] == c
    ensures Until(s, c) <= k
  {
    if k > 0 { UntilAtMost(s[1..], c, k - 1); }
  }

  lemma SplitOnFirst(a: string, c: char, b: string)
    requires c !in a
    ensures SplitOn(a + [c] + b, c) == [a] + SplitOn(b, c)
    ensures SplitOn(a, c) == [a]
  {
    var s := a + [c] + b;
    assert s[..|a|] == a && s[|a| + 1..] == b;
    UntilAt(s, c, |a|);
    assert a[..|a|] == a;
    UntilAt(a, c, |a|);
  }
}
