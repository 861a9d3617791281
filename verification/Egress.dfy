/** The egress allowlist: provider hosts compiled to filter lines, and what those lines mean to the
    proxy when it reads them as POSIX extended regular expressions (section 9.4 of the IEEE Std
    1003.1 Base Definitions), searched case-insensitively. */
module Egress {
  import opened Config
  import opened Environment
  import opened Registry
  import opened Text
  import opened Wrappers

  // ----- Collecting the hosts

  const ANTHROPIC_HOST := "api.anthropic.com"

  /** The hosts one provider needs; `hostname` is the URL parser's. */
  function HostsOf(spec: ProviderSpec, hostname: string -> Option<string>): set<string> {
    (if Falsy(spec.baseUrl) || Falsy(hostname(spec.baseUrl.value)) then {} else {hostname(spec.baseUrl.value).value})
    + (if spec.kind == Anthropic then {ANTHROPIC_HOST} else {})
  }

  ghost predicate Needed(cfg: Config, hostname: string -> Option<string>, h: string) {
    exists i :: 0 <= i < |cfg.providers| && h in HostsOf(cfg.providers[i].1, hostname)
  }

  /** The provider's URL has a host. */
  predicate HasHost(spec: ProviderSpec, hostname: string -> Option<string>) {
    && spec.baseUrl.Some? && spec.baseUrl.value != ""
    && hostname(spec.baseUrl.value).Some? && hostname(spec.baseUrl.value).value != ""
  }

  /** What a provider needs: the host of its URL, and Anthropic's own for an entry of that kind. */
  ghost predicate NeededBySome(cfg: Config, hostname: string -> Option<string>, h: string) {
    exists i :: 0 <= i < |cfg.providers| &&
      ((cfg.providers[i].1.kind == Anthropic && h == "api.anthropic.com")
       || (HasHost(cfg.providers[i].1, hostname) && h == hostname(cfg.providers[i].1.baseUrl.value).value))
  }

  lemma NeededExactly(cfg: Config, hostname: string -> Option<string>, h: string)
    ensures Needed(cfg, hostname, h) <==> NeededBySome(cfg, hostname, h)
  {
    if i :| 0 <= i < |cfg.providers| && h in HostsOf(cfg.providers[i].1, hostname) {
      assert (cfg.providers[i].1.kind == Anthropic && h == "api.anthropic.com")
          || (HasHost(cfg.providers[i].1, hostname) && h == hostname(cfg.providers[i].1.baseUrl.value).value);
    }
    if NeededBySome(cfg, hostname, h) {
      var i :| 0 <= i < |cfg.providers| &&
        ((cfg.providers[i].1.kind == Anthropic && h == "api.anthropic.com")
         || (HasHost(cfg.providers[i].1, hostname) && h == hostname(cfg.providers[i].1.baseUrl.value).value));
      assert h in HostsOf(cfg.providers[i].1, hostname);
    }
  }

  method CollectHosts(cfg: Config, hostname: string -> Option<string>) returns (hosts: Option<set<string>>)
    ensures hosts.Some? ==> hosts.value != {} && forall h :: h in hosts.value <==> Needed(cfg, hostname, h)
    ensures hosts == None ==> forall h :: !Needed(cfg, hostname, h)
    ensures hosts == None <==> forall i :: 0 <= i < |cfg.providers| ==> cfg.providers[i].1.kind != Anthropic && !HasHost(cfg.providers[i].1, hostname)
    ensures hosts.Some? ==>
              && (forall i :: 0 <= i < |cfg.providers| && cfg.providers[i].1.kind == Anthropic ==> "api.anthropic.com" in hosts.value)
              && (forall i :: 0 <= i < |cfg.providers| && HasHost(cfg.providers[i].1, hostname) ==>
                    hostname(cfg.providers[i].1.baseUrl.value).value in hosts.value)
              && forall h :: h in hosts.value ==> NeededBySome(cfg, hostname, h)
  {
    var found: set<string> := {};
    for i := 0 to |cfg.providers|
      invariant forall h :: h in found <==> exists k :: 0 <= k < i && h in HostsOf(cfg.providers[k].1, hostname)
    {
      var spec := cfg.providers[i].1;
      if !Falsy(spec.baseUrl) {
        var h := hostname(spec.baseUrl.value);
        if !Falsy(h) {
          found := found + {h.value};
        }
      }
      if spec.kind == Anthropic {
        found := found + {ANTHROPIC_HOST};
      }
    }
    assert forall h :: h in found <==> Needed(cfg, hostname, h);
    forall h ensures Needed(cfg, hostname, h) <==> NeededBySome(cfg, hostname, h) { NeededExactly(cfg, hostname, h); }
    forall i | 0 <= i < |cfg.providers| && cfg.providers[i].1.kind == Anthropic ensures "api.anthropic.com" in found {
      assert NeededBySome(cfg, hostname, "api.anthropic.com");
    }
    forall i | 0 <= i < |cfg.providers| && HasHost(cfg.providers[i].1, hostname) ensures hostname(cfg.providers[i].1.baseUrl.value).value in found {
      assert NeededBySome(cfg, hostname, hostname(cfg.providers[i].1.baseUrl.value).value);
    }
    if found != {} {
      var h :| h in found;
      assert NeededBySome(cfg, hostname, h);
    }
    return if found == {} then None else Some(found);
  }

  // ----- Generating the filter

  const TELEGRAM_LINE := "(^|\\.)" + ("telegram\\.org" + "$")
  const TELEGRAM_HOST := "telegram.org"

  function EscapeDots(host: string): string {
    Replace(host, ".", "\\.")
  }

  function HostLine(host: string): string {
    "^" + (EscapeDots(host) + "$")
  }

  method GenerateFilter(hosts: seq<string>) returns (lines: seq<string>)
    ensures |lines| == |hosts| + 1 && lines[0] == TELEGRAM_LINE && lines[0] == "(^|\\.)telegram\\.org$"
    ensures forall i :: 0 <= i < |hosts| ==> lines[i + 1] == HostLine(hosts[i])
    ensures forall i :: 0 <= i < |hosts| ==> lines[i + 1] == "^" + (Replace(hosts[i], ".", "\\.") + "$")
  {
    lines := [TELEGRAM_LINE];
    for i := 0 to |hosts|
      invariant |lines| == i + 1 && lines[0] == TELEGRAM_LINE
      invariant forall k :: 0 <= k < i ==> lines[k + 1] == HostLine(hosts[k])
    {
      var escaped := ReplaceAll(hosts[i], ".", "\\.");
      lines := lines + ["^" + (escaped + "$")];
    }
  }

  // ----- Extended regular expressions

  datatype Regex = Empty | Char(c: char) | Any | Bol | Eol | Cat(first: Regex, rest: Regex) | Alt(left: Regex, right: Regex)

  /** A parsed piece and the input left after it. */
  datatype Parsed = Fails | Parses(re: Regex, rest: string)

  /** Alternation of branches. Repetition, intervals and brackets are not among the constructs the
      generator uses and do not parse here. */
  function ParseAlt(s: string): (p: Parsed)
    ensures p.Parses? ==> |p.rest| <= |s|
    decreases |s|, 2
  {
    match ParseBranch(s)
    case Fails => Fails
    case Parses(left, rest) =>
      if rest == "" || rest[0] != '|' then Parses(left, rest)
      else match ParseAlt(rest[1..])
        case Fails => Fails
        case Parses(right, rest') => Parses(Alt(left, right), rest')
  }

  function ParseBranch(s: string): (p: Parsed)
    ensures p.Parses? ==> |p.rest| <= |s|
    decreases |s|, 1
  {
    if s == "" || s[0] == '|' || s[0] == ')' then Parses(Empty, s)
    else match ParseAtom(s)
      case Fails => Fails
      case Parses(atom, rest) =>
        match ParseBranch(rest)
        case Fails => Fails
        case Parses(re, rest') => Parses(Cat(atom, re), rest')
  }

  function ParseAtom(s: string): (p: Parsed)
    requires s != ""
    ensures p.Parses? ==> |p.rest| < |s|
    decreases |s|, 0
  {
    match s[0]
    case '\\' => if |s| == 1 then Fails else Parses(Char(s[1]), s[2..])
    case '.' => Parses(Any, s[1..])
    case '^' => Parses(Bol, s[1..])
    case '$' => Parses(Eol, s[1..])
    case '(' =>
      (match ParseAlt(s[1..])
       case Fails => Fails
       case Parses(re, rest) => if rest == "" || rest[0] != ')' then Fails else Parses(re, rest[1..]))
    case c => if c in "*+?{[|)" then Fails else Parses(Char(c), s[1..])
  }

  function ParseEre(line: string): Option<Regex> {
    match ParseAlt(line)
    case Fails => None
    case Parses(re, rest) => if rest == "" then Some(re) else None
  }

  /** The expression matches s[i..j]; anchors look at the whole of s. */
  ghost predicate Matches(re: Regex, s: string, i: int, j: int) {
    0 <= i <= j <= |s| &&
    match re
    case Empty => i == j
    case Char(c) => j == i + 1 && LowerChar(s[i]) == LowerChar(c)
    case Any => j == i + 1
    case Bol => i == j == 0
    case Eol => i == j == |s|
    case Cat(a, b) => exists k :: Matches(a, s, i, k) && Matches(b, s, k, j)
    case Alt(a, b) => Matches(a, s, i, j) || Matches(b, s, i, j)
  }

  ghost predicate Search(re: Regex, s: string) {
    exists i, j :: Matches(re, s, i, j)
  }

  /** The proxy denies by default: a host passes when some line of the filter matches it. */
  ghost predicate Passes(lines: seq<string>, host: string) {
    exists k :: 0 <= k < |lines| && ParseEre(lines[k]).Some? && Search(ParseEre(lines[k]).value, host)
  }

  // ----- What the generated lines mean

  predicate HostChar(c: char) {
    'a' <= c <= 'z' || 'A' <= c <= 'Z' || '0' <= c <= '9' || c == '-' || c == '.'
  }

  /** Letters, digits, "-" and ".", by code point. */
  lemma HostCharExactly(c: char)
    ensures HostChar(c) <==> 97 <= c as int <= 122 || 65 <= c as int <= 90 || 48 <= c as int <= 57 || c as int in [45, 46]
  {
  }

  predicate PlainHost(h: string) {
    forall i :: 0 <= i < |h| ==> HostChar(h[i])
  }

  function Literal(h: string, end: Regex): Regex {
    if h == "" then end else Cat(Char(h[0]), Literal(h[1..], end))
  }

  /** An escaped host parses to the literal host. */
  lemma {:induction false} EscapedHostParses(h: string, tail: string)
    requires PlainHost(h) && ParseBranch(tail).Parses?
    ensures ParseBranch(EscapeDots(h) + tail) == Parses(Literal(h, ParseBranch(tail).re), ParseBranch(tail).rest)
  {
    hide ParseAtom, ParseBranch;
    if h == "" {
      assert EscapeDots(h) + tail == tail;
    } else {
      var c, t := h[0], h[1..];
      var piece := if c == '.' then "\\." else [c];
      assert h == [c] + t && HostChar(c);
      ReplaceChar(c, t, '.', "\\.");
      assert EscapeDots(h) == piece + EscapeDots(t);
      EscapedHostParses(t, tail);
      var rest := EscapeDots(t) + tail;
      assert EscapeDots(h) + tail == piece + rest;
      LiteralAtom(c, rest);
      BranchStep(piece + rest, Char(c), rest);
    }
  }

  lemma LiteralAtom(c: char, rest: string)
    requires HostChar(c)
    ensures ParseAtom((if c == '.' then "\\." else [c]) + rest) == Parses(Char(c), rest)
  {
    if c == '.' {
      assert ("\\." + rest)[2..] == rest;
    } else {
      assert ([c] + rest)[1..] == rest;
    }
  }

  lemma BranchStep(s: string, atom: Regex, rest: string)
    requires s != "" && s[0] != '|' && s[0] != ')' && ParseAtom(s) == Parses(atom, rest) && ParseBranch(rest).Parses?
    ensures ParseBranch(s) == Parses(Cat(atom, ParseBranch(rest).re), ParseBranch(rest).rest)
  {
  }

  lemma WholeLine(s: string)
    requires ParseBranch(s).Parses? && ParseBranch(s).rest == ""
    ensures ParseEre(s) == Some(ParseBranch(s).re)
  {
  }

  lemma EndParses()
    ensures ParseBranch("$") == Parses(Cat(Eol, Empty), "")
  {
    assert "$"[1..] == "";
    assert ParseAtom("$") == Parses(Eol, "");
  }

  lemma HostLineParses(h: string)
    requires PlainHost(h)
    ensures ParseEre(HostLine(h)) == Some(Cat(Bol, Literal(h, Cat(Eol, Empty))))
  {
    EndParses();
    EscapedHostParses(h, "$");
    var s, rest := HostLine(h), EscapeDots(h) + "$";
    assert s[1..] == rest;
    assert ParseAtom(s) == Parses(Bol, rest);
    BranchStep(s, Bol, rest);
    WholeLine(s);
  }

  lemma TelegramLineParses()
    ensures ParseEre(TELEGRAM_LINE)
         == Some(Cat(Alt(Cat(Bol, Empty), Cat(Char('.'), Empty)), Literal(TELEGRAM_HOST, Cat(Eol, Empty))))
  {
    hide ParseAtom, ParseBranch, ParseEre, EscapeDots, Literal;
    EndParses();
    TelegramEscaped();
    assert PlainHost(TELEGRAM_HOST);
    EscapedHostParses(TELEGRAM_HOST, "$");
    var end := "telegram\\.org" + "$";
    GroupParses(end);
    BranchStep(TELEGRAM_LINE, Alt(Cat(Bol, Empty), Cat(Char('.'), Empty)), end);
    WholeLine(TELEGRAM_LINE);
  }

  lemma TelegramEscaped()
    ensures EscapeDots(TELEGRAM_HOST) == "telegram\\.org"
  {
    hide EscapeDots;
    var telegram, org: string := "telegram", "org";
    Nothing();
    NoDots(org, "");
    assert org + "" == org;
    DotEscaped(org);
    NoDots(telegram, "." + org);
    assert TELEGRAM_HOST == telegram + ("." + org);
    assert telegram + ("\\." + org) == "telegram\\.org";
  }

  lemma Nothing()
    ensures EscapeDots("") == ""
  {
  }

  lemma DotEscaped(rest: string)
    ensures EscapeDots("." + rest) == "\\." + EscapeDots(rest)
  {
    ReplaceChar('.', rest, '.', "\\.");
  }

  lemma {:induction false} NoDots(x: string, rest: string)
    requires '.' !in x
    ensures EscapeDots(x + rest) == x + EscapeDots(rest)
  {
    if x == "" {
      assert x + rest == rest;
    } else {
      assert x[0] in x && x + rest == [x[0]] + (x[1..] + rest);
      ReplaceChar(x[0], x[1..] + rest, '.', "\\.");
      NoDots(x[1..], rest);
      Reassociate([x[0]], x[1..], EscapeDots(rest));
      assert x == [x[0]] + x[1..];
    }
  }

  lemma DotParses(end: string)
    ensures ParseAlt("\\." + (")" + end)) == Parses(Cat(Char('.'), Empty), ")" + end)
  {
    var close := ")" + end;
    var dot := "\\." + close;
    assert dot[2..] == close && ParseBranch(close) == Parses(Empty, close);
    assert ParseAtom(dot) == Parses(Char('.'), close);
    BranchStep(dot, Char('.'), close);
  }

  lemma CaretParses(bar: string)
    requires bar != "" && bar[0] == '|'
    ensures ParseBranch("^" + bar) == Parses(Cat(Bol, Empty), bar)
  {
    var caret := "^" + bar;
    assert caret[1..] == bar && ParseAtom(caret) == Parses(Bol, bar);
    BranchStep(caret, Bol, bar);
  }

  lemma AltParses(s: string, left: Regex, other: string, right: Regex, rest: string)
    requires ParseBranch(s) == Parses(left, "|" + other) && ParseAlt(other) == Parses(right, rest)
    ensures ParseAlt(s) == Parses(Alt(left, right), rest)
  {
    assert ("|" + other)[1..] == other;
  }

  lemma ParenParses(inner: string, re: Regex, end: string)
    requires ParseAlt(inner) == Parses(re, ")" + end)
    ensures ParseAtom("(" + inner) == Parses(re, end)
  {
    assert ("(" + inner)[1..] == inner && (")" + end)[1..] == end;
  }

  lemma GroupParses(end: string)
    ensures ParseAtom("(^|\\.)" + end) == Parses(Alt(Cat(Bol, Empty), Cat(Char('.'), Empty)), end)
  {
    hide ParseAtom, ParseBranch, ParseAlt;
    var close := ")" + end;
    var dot := "\\." + close;
    var bar := "|" + dot;
    DotParses(end);
    CaretParses(bar);
    AltParses("^" + bar, Cat(Bol, Empty), dot, Cat(Char('.'), Empty), close);
    ParenParses("^" + bar, Alt(Cat(Bol, Empty), Cat(Char('.'), Empty)), end);
    assert "(^|\\.)" + end == "(" + ("^" + bar);
  }

  lemma CatSplit(a: Regex, b: Regex, s: string, i: int, j: int) returns (k: int)
    requires Matches(Cat(a, b), s, i, j)
    ensures Matches(a, s, i, k) && Matches(b, s, k, j)
  {
    k :| Matches(a, s, i, k) && Matches(b, s, k, j);
  }

  predicate SameLetters(a: string, b: string) {
    |a| == |b| && forall i :: 0 <= i < |a| ==> LowerChar(a[i]) == LowerChar(b[i])
  }

  lemma {:induction false} LiteralMatches(h: string, s: string, i: int, j: int)
    ensures Matches(Literal(h, Cat(Eol, Empty)), s, i, j) <==> 0 <= i && j == |s| && i + |h| == |s| && SameLetters(s[i..], h)
    decreases |h|
  {
    if h == "" {
      assert 0 <= i <= |s| && j == |s| && i == |s| ==> Matches(Eol, s, i, i) && Matches(Empty, s, i, j);
    } else {
      var t := h[1..];
      LiteralMatches(t, s, i + 1, j);
      if Matches(Literal(h, Cat(Eol, Empty)), s, i, j) {
        var k := CatSplit(Char(h[0]), Literal(t, Cat(Eol, Empty)), s, i, j);
        assert forall x :: 1 <= x < |h| ==> h[x] == t[x - 1] && s[i..][x] == s[i + 1..][x - 1];
      }
      if 0 <= i && j == |s| && i + |h| == |s| && SameLetters(s[i..], h) {
        assert s[i] == s[i..][0];
        assert Matches(Char(h[0]), s, i, i + 1);
        assert forall x :: 0 <= x < |t| ==> t[x] == h[x + 1] && s[i + 1..][x] == s[i..][x + 1];
      }
    }
  }

  lemma HostLineMeaning(h: string, s: string)
    ensures Search(Cat(Bol, Literal(h, Cat(Eol, Empty))), s) <==> SameLetters(s, h)
  {
    var lit := Literal(h, Cat(Eol, Empty));
    LiteralMatches(h, s, 0, |s|);
    assert s[0..] == s;
    if Search(Cat(Bol, lit), s) {
      var i, j :| Matches(Cat(Bol, lit), s, i, j);
      var k := CatSplit(Bol, lit, s, i, j);
      LiteralMatches(h, s, 0, j);
    }
    if SameLetters(s, h) {
      assert Matches(Bol, s, 0, 0) && Matches(lit, s, 0, |s|);
      assert Matches(Cat(Bol, lit), s, 0, |s|);
    }
  }

  /** telegram.org itself or a subdomain of it, in any case. */
  ghost predicate TelegramHost(s: string) {
    SameLetters(s, TELEGRAM_HOST)
    || exists k :: 0 < k < |s| && s[k - 1] == '.' && SameLetters(s[k..], TELEGRAM_HOST)
  }

  /** Spelled out: the name itself, or anything that ends in a dot before it. */
  lemma TelegramHostExactly(s: string)
    ensures TelegramHost(s) <==> exists p: string :: (p == "" || p[|p| - 1] == '.') && p <= s && SameLetters(s[|p|..], "telegram.org")
  {
    hide LowerChar;
    if SameLetters(s, TELEGRAM_HOST) {
      assert s[|""|..] == s && "" <= s;
    }
    if k :| 0 < k < |s| && s[k - 1] == '.' && SameLetters(s[k..], TELEGRAM_HOST) {
      var p := s[..k];
      assert p <= s && s[|p|..] == s[k..] && p[|p| - 1] == '.';
    }
    if p: string :| (p == "" || p[|p| - 1] == '.') && p <= s && SameLetters(s[|p|..], "telegram.org") {
      if p == "" { assert s[|p|..] == s; } else { assert s[|p| - 1] == p[|p| - 1]; }
    }
  }

  lemma TelegramLineMeaning(s: string)
    ensures Search(Cat(Alt(Cat(Bol, Empty), Cat(Char('.'), Empty)), Literal(TELEGRAM_HOST, Cat(Eol, Empty))), s) <==> TelegramHost(s)
  {
    var lit := Literal(TELEGRAM_HOST, Cat(Eol, Empty));
    var bol, dot := Cat(Bol, Empty), Cat(Char('.'), Empty);
    var head := Alt(bol, dot);
    hide Literal, LowerChar;
    if Search(Cat(head, lit), s) {
      var i, j :| Matches(Cat(head, lit), s, i, j);
      var k := CatSplit(head, lit, s, i, j);
      LiteralMatches(TELEGRAM_HOST, s, k, j);
      HeadMatches(s, i, k);
      assert k == 0 ==> s[0..] == s;
    }
    if SameLetters(s, TELEGRAM_HOST) {
      LiteralMatches(TELEGRAM_HOST, s, 0, |s|);
      assert s[0..] == s;
      HeadMatches(s, 0, 0);
      assert Matches(Cat(head, lit), s, 0, |s|);
    }
    if k :| 0 < k < |s| && s[k - 1] == '.' && SameLetters(s[k..], TELEGRAM_HOST) {
      LiteralMatches(TELEGRAM_HOST, s, k, |s|);
      HeadMatches(s, k - 1, k);
      assert Matches(Cat(head, lit), s, k - 1, |s|);
    }
  }

  lemma HeadMatches(s: string, i: int, k: int)
    ensures Matches(Alt(Cat(Bol, Empty), Cat(Char('.'), Empty)), s, i, k)
       <==> (i == 0 && k == 0) || (0 <= i < |s| && k == i + 1 && s[i] == '.')
  {
    assert Matches(Cat(Bol, Empty), s, i, k) <==> i == 0 && k == 0 by {
      if i == 0 && k == 0 { assert Matches(Bol, s, 0, 0) && Matches(Empty, s, 0, 0); }
    }
    assert Matches(Cat(Char('.'), Empty), s, i, k) <==> 0 <= i < |s| && k == i + 1 && s[i] == '.' by {
      if 0 <= i < |s| && k == i + 1 && s[i] == '.' { assert Matches(Char('.'), s, i, k) && Matches(Empty, s, k, k); }
    }
  }

  /** The main result: the generated filter passes a host exactly when it is one of the given hosts,
      telegram.org or a subdomain of it, letter case aside. */
  lemma FilterMeansAllowlist(hosts: seq<string>, lines: seq<string>, s: string)
    requires forall i :: 0 <= i < |hosts| ==> PlainHost(hosts[i])
    requires |lines| == |hosts| + 1 && lines[0] == TELEGRAM_LINE
    requires forall i :: 0 <= i < |hosts| ==> lines[i + 1] == HostLine(hosts[i])
    ensures Passes(lines, s) <==> TelegramHost(s) || exists i :: 0 <= i < |hosts| && SameLetters(s, hosts[i])
  {
    hide ParseEre, HostLine, Literal, SameLetters, TelegramHost;
    TelegramLineParses();
    TelegramLineMeaning(s);
    forall i | 0 <= i < |hosts|
      ensures ParseEre(lines[i + 1]).Some? && (Search(ParseEre(lines[i + 1]).value, s) <==> SameLetters(s, hosts[i]))
    {
      HostLineParses(hosts[i]);
      HostLineMeaning(hosts[i], s);
    }
    if Passes(lines, s) {
      var k :| 0 <= k < |lines| && ParseEre(lines[k]).Some? && Search(ParseEre(lines[k]).value, s);
      assert k > 0 ==> SameLetters(s, hosts[k - 1]);
    }
    if TelegramHost(s) { assert Search(ParseEre(lines[0]).value, s); }
    if i :| 0 <= i < |hosts| && SameLetters(s, hosts[i]) { assert Search(ParseEre(lines[i + 1]).value, s); }
  }

  /** From the configuration to the proxy: with the collected hosts in any order, the filter passes a
      host exactly when some provider needs it or it is Telegram's. */
  lemma AllowlistEndToEnd(cfg: Config, hostname: string -> Option<string>, hosts: seq<string>, lines: seq<string>, s: string)
    requires forall h :: h in hosts <==> Needed(cfg, hostname, h)
    requires forall i :: 0 <= i < |hosts| ==> PlainHost(hosts[i])
    requires |lines| == |hosts| + 1 && lines[0] == TELEGRAM_LINE
    requires forall i :: 0 <= i < |hosts| ==> lines[i + 1] == HostLine(hosts[i])
    ensures Passes(lines, s) <==> TelegramHost(s) || exists h :: NeededBySome(cfg, hostname, h) && SameLetters(s, h)
  {
    hide Passes, TelegramHost, HostLine, Needed, NeededBySome, SameLetters;
    forall h ensures Needed(cfg, hostname, h) <==> NeededBySome(cfg, hostname, h) { NeededExactly(cfg, hostname, h); }
    FilterMeansAllowlist(hosts, lines, s);
    if i :| 0 <= i < |hosts| && SameLetters(s, hosts[i]) { assert hosts[i] in hosts; }
    if h :| NeededBySome(cfg, hostname, h) && SameLetters(s, h) { var i :| 0 <= i < |hosts| && hosts[i] == h; }
  }

  /** Why dots are escaped: an unescaped one lets any character through in its place. */
  lemma UnescapedDotPassesOthers(c: char)
    ensures Passes(["^a.b$"], ['a', c, 'b'])
  {
    var s, end := ['a', c, 'b'], Cat(Eol, Empty);
    var re := Cat(Bol, Cat(Char('a'), Cat(Any, Cat(Char('b'), end))));
    UnescapedParses();
    assert Matches(Eol, s, 3, 3) && Matches(Empty, s, 3, 3) && Matches(end, s, 3, 3);
    assert Matches(Char('b'), s, 2, 3) && Matches(Cat(Char('b'), end), s, 2, 3);
    assert Matches(Any, s, 1, 2) && Matches(Cat(Any, Cat(Char('b'), end)), s, 1, 3);
    assert Matches(Char('a'), s, 0, 1) && Matches(Cat(Char('a'), Cat(Any, Cat(Char('b'), end))), s, 0, 3);
    assert Matches(Bol, s, 0, 0) && Matches(re, s, 0, 3);
    assert ["^a.b$"][0] == "^a.b$";
  }

  lemma UnescapedParses()
    ensures ParseEre("^a.b$") == Some(Cat(Bol, Cat(Char('a'), Cat(Any, Cat(Char('b'), Cat(Eol, Empty))))))
  {
    EndParses();
    assert "b$"[1..] == "$" && ParseAtom("b$") == Parses(Char('b'), "$");
    BranchStep("b$", Char('b'), "$");
    assert ".b$"[1..] == "b$" && ParseAtom(".b$") == Parses(Any, "b$");
    BranchStep(".b$", Any, "b$");
    assert "a.b$"[1..] == ".b$" && ParseAtom("a.b$") == Parses(Char('a'), ".b$");
    BranchStep("a.b$", Char('a'), ".b$");
    assert "^a.b$"[1..] == "a.b$" && ParseAtom("^a.b$") == Parses(Bol, "a.b$");
    BranchStep("^a.b$", Bol, "a.b$");
    WholeLine("^a.b$");
  }

  /** Hence every provider the agent can resolve is reachable through the proxy. */
  lemma ResolvedHostPasses(cfg: Config, env: Environ, ref: string, hostname: string -> Option<string>, hosts: seq<string>, lines: seq<string>)
    requires Resolve(cfg, env, ref).Ok?
    requires var url := Resolve(cfg, env, ref).value.baseUrl; !Falsy(url) && !Falsy(hostname(url.value))
    requires forall h :: Needed(cfg, hostname, h) ==> h in hosts
    requires forall i :: 0 <= i < |hosts| ==> PlainHost(hosts[i])
    requires |lines| == |hosts| + 1 && lines[0] == TELEGRAM_LINE
    requires forall i :: 0 <= i < |hosts| ==> lines[i + 1] == HostLine(hosts[i])
    ensures Passes(lines, hostname(Resolve(cfg, env, ref).value.baseUrl.value).value)
  {
    hide Passes, TelegramHost, Resolve, HostLine;
    ResolvedFaithfully(cfg, env, ref);
    var r := Resolve(cfg, env, ref).value;
    var h := hostname(r.baseUrl.value).value;
    var spec :| (r.provider, spec) in cfg.providers && r.baseUrl == spec.baseUrl;
    var k :| 0 <= k < |cfg.providers| && cfg.providers[k] == (r.provider, spec);
    assert h in HostsOf(cfg.providers[k].1, hostname);
    assert Needed(cfg, hostname, h);
    var i :| 0 <= i < |hosts| && hosts[i] == h;
    assert SameLetters(h, hosts[i]);
    FilterMeansAllowlist(hosts, lines, h);
  }
}
