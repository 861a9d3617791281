/** The module global `_SECRETS`: collected from the environment at import, extended by
    register_secret, read by every scrub. */
module SecretStore {
  import opened Environment
  import opened Scrubber
  import opened Sorting
  import opened Text
  import opened Wrappers

  /** A Python value offered for registration. */
  datatype PyValue = Str(text: string) | OtherType

  /** The list after register_secret: unchanged for a rejected or known value, otherwise the sort
      of the list with the value appended. */
  function Registered(secrets: seq<string>, value: PyValue): seq<string> {
    if value.OtherType? || value.text == "" || value.text in secrets then secrets
    else StableSort(secrets + [value.text], ByLength)
  }

  lemma SortedPublishes(found: seq<string>)
    requires Distinct(found) && NonEmpty(found)
    ensures Published(StableSort(found, ByLength))
    ensures forall s :: s in StableSort(found, ByLength) <==> s in found
  {
    var sorted := StableSort(found, ByLength);
    StableSortIsStable(found, ByLength);
    SameItemsDistinct(sorted, found);
    forall i | 0 <= i < |sorted| ensures sorted[i] != "" { assert sorted[i] in found; }
  }

  lemma RegisteredPublishes(secrets: seq<string>, value: PyValue)
    requires Published(secrets)
    ensures Published(Registered(secrets, value))
    ensures forall s :: s in Registered(secrets, value) <==> s in secrets || (value == Str(s) && s != "")
    ensures Registered(Registered(secrets, value), value) == Registered(secrets, value)
  {
    if value.Str? && value.text != "" && value.text !in secrets {
      var all := secrets + [value.text];
      SortedPublishes(all);
    }
  }

  predicate KeyValue(env: Environ, s: string) {
    exists e :: e in env && EndsWith(e.0, "_API_KEY") && e.1 == s
  }

  lemma NamedKeys(env: Environ, s: string)
    ensures KeyValue(env, s) <==> exists p :: (p + "_API_KEY", s) in env
  {
    hide EndsWith;
    if e :| e in env && EndsWith(e.0, "_API_KEY") && e.1 == s {
      EndsWithExactly(e.0, "_API_KEY");
      var p :| e.0 == p + "_API_KEY";
      assert (p + "_API_KEY", s) in env;
    }
    if p :| (p + "_API_KEY", s) in env {
      EndsWithExactly(p + "_API_KEY", "_API_KEY");
    }
  }

  /** The parts of a log record that the filter rewrites. `exception` stands for what the formatter
      makes of exc_info; empty texts are falsy, as in Python. */
  class LogRecord {
    var msg: string
    var exception: Option<string>
    var excText: Option<string>
    var stackInfo: Option<string>

    constructor (message: string, exception: Option<string>, stackInfo: Option<string>)
      ensures msg == message && this.exception == exception && this.stackInfo == stackInfo && excText == None
    {
      msg, this.exception, this.stackInfo, excText := message, exception, stackInfo, None;
    }
  }

  function Truthy(t: Option<string>): bool {
    t.Some? && t.value != ""
  }

  function ScrubTruthy(t: Option<string>, secrets: seq<string>): Option<string>
    requires NonEmpty(secrets)
  {
    if Truthy(t) then Some(Scrub(t.value, secrets)) else t
  }

  /** The exception text after the filter: an existing one scrubbed, else the formatter's (which
      scrubs too) scrubbed again. */
  function FilteredTrace(excText: Option<string>, exception: Option<string>, secrets: seq<string>): Option<string>
    requires NonEmpty(secrets)
  {
    if Truthy(excText) || exception == None then ScrubTruthy(excText, secrets)
    else ScrubTruthy(Some(Scrub(exception.value, secrets)), secrets)
  }

  ghost predicate Hides(t: Option<string>, secrets: seq<string>) {
    t.Some? ==> forall s :: s in secrets ==> !Contains(t.value, s)
  }

  class Store {
    var secrets: seq<string>

    ghost predicate Valid()
      reads this
    {
      Published(secrets)
    }

    constructor Collect(env: Environ)
      ensures Valid()
      ensures forall s :: s in secrets <==>
                s != "" && (s == Get(env, "TELEGRAM_BOT_TOKEN") || exists p :: (p + "_API_KEY", s) in env)
    {
      var found: seq<string> := [];
      var token := Get(env, TOKEN_NAME);
      if token != "" {
        found := found + [token];
      }
      for i := 0 to |env|
        invariant Distinct(found) && NonEmpty(found)
        invariant forall s :: s in found <==> s != "" && (s == token || KeyValue(env[..i], s))
      {
        var (name, value) := env[i];
        assert env[..i + 1] == env[..i] + [env[i]];
        if EndsWith(name, "_API_KEY") && value != "" && value !in found {
          found := found + [value];
        }
      }
      assert env[..|env|] == env;
      forall s ensures KeyValue(env, s) <==> exists p :: (p + "_API_KEY", s) in env { NamedKeys(env, s); }
      SortedPublishes(found);
      secrets := StableSort(found, ByLength);
    }

    method RegisterSecret(value: PyValue)
      requires Valid()
      modifies this
      ensures Valid() && secrets == Registered(old(secrets), value)
      ensures value.Str? && value.text != "" && value.text !in old(secrets) ==> secrets == StableSort(old(secrets) + [value.text], ByLength)
      ensures forall s :: s in secrets <==> s in old(secrets) || (value == Str(s) && s != "")
    {
      RegisteredPublishes(secrets, value);
      if value.OtherType? || value.text == "" {
        return;
      }
      if value.text in secrets {
        return;
      }
      secrets := StableSort(secrets + [value.text], ByLength);
    }

    method ScrubText(text: string) returns (r: string)
      requires Valid()
      ensures r == Scrub(text, secrets)
    {
      r := text;
      for i := 0 to |secrets|
        invariant Scrub(text, secrets) == Scrub(r, secrets[i..])
      {
        assert secrets[i..][0] == secrets[i] && secrets[i..][1..] == secrets[i + 1..];
        r := ReplaceAll(r, secrets[i], MARK);
      }
    }

    /** _ScrubFilter.filter: rewrites the texts of the record in place, unless there is nothing to hide. */
    method Filter(record: LogRecord)
      requires Valid()
      modifies record
      ensures secrets == [] ==> unchanged(record)
      ensures secrets != [] ==>
                && record.msg == Scrub(old(record.msg), secrets)
                && (old(record.stackInfo) == None ==> record.stackInfo == None)
                && (old(record.stackInfo).Some? ==> record.stackInfo == Some(Scrub(old(record.stackInfo).value, secrets)))
                && record.excText == FilteredTrace(old(record.excText), old(record.exception), secrets)
      ensures record.exception == old(record.exception)
    {
      if secrets == [] {
        return;
      }
      ScrubNothing(secrets);
      record.msg := ScrubText(record.msg);
      if record.exception.Some? && !Truthy(record.excText) {
        var formatted := ScrubText(record.exception.value);
        record.excText := Some(formatted);
      }
      if Truthy(record.excText) {
        var scrubbed := ScrubText(record.excText.value);
        record.excText := Some(scrubbed);
      }
      if Truthy(record.stackInfo) {
        var scrubbed := ScrubText(record.stackInfo.value);
        record.stackInfo := Some(scrubbed);
      }
    }
  }

  lemma TruthyHides(t: Option<string>, secrets: seq<string>)
    requires NonEmpty(secrets) && AllClear(secrets)
    ensures Hides(ScrubTruthy(t, secrets), secrets)
    ensures Hides(t, secrets) ==> ScrubTruthy(t, secrets) == t
  {
    if Truthy(t) {
      ScrubHidesEverySecret(t.value, secrets);
      if Hides(t, secrets) { ScrubLeavesClean(t.value, secrets); }
    } else if t.Some? {
      forall s | s in secrets ensures !Contains("", s) {}
    }
  }

  lemma {:induction false} ScrubNothing(secrets: seq<string>)
    requires NonEmpty(secrets)
    ensures Scrub("", secrets) == ""
    decreases |secrets|
  {
    if secrets != [] { ScrubNothing(secrets[1..]); }
  }

  /** The exception text survives the filter, scrubbed: an existing one, or else what the formatter
      makes of the exception. */
  lemma TraceIsKept(excText: Option<string>, exception: Option<string>, secrets: seq<string>)
    requires NonEmpty(secrets) && AllClear(secrets)
    ensures excText.Some? && excText.value != "" ==> FilteredTrace(excText, exception, secrets) == Some(Scrub(excText.value, secrets))
    ensures excText in {None, Some("")} && exception.Some? ==> FilteredTrace(excText, exception, secrets) == Some(Scrub(exception.value, secrets))
    ensures excText in {None, Some("")} && exception == None ==> FilteredTrace(excText, exception, secrets) == excText
  {
    ScrubNothing(secrets);
    if exception.Some? { ScrubIdempotent(exception.value, secrets); }
  }

  lemma {:induction false} ScrubLeavesSomething(text: string, secrets: seq<string>)
    requires NonEmpty(secrets) && text != ""
    ensures Scrub(text, secrets) != ""
    decreases |secrets|
  {
    if secrets != [] { ScrubLeavesSomething(Replace(text, secrets[0], MARK), secrets[1..]); }
  }

  /** No text that the filter writes keeps a clear secret, and filtering the record once more
      changes none of them. */
  lemma FilterHidesAndSettles(msg: string, excText: Option<string>, exception: Option<string>, stackInfo: Option<string>, secrets: seq<string>)
    requires NonEmpty(secrets) && AllClear(secrets)
    ensures var m, e, i := Scrub(msg, secrets), FilteredTrace(excText, exception, secrets), ScrubTruthy(stackInfo, secrets);
            && Hides(Some(m), secrets) && Hides(e, secrets) && Hides(i, secrets)
            && Scrub(m, secrets) == m && ScrubTruthy(i, secrets) == i
            && FilteredTrace(e, exception, secrets) == e
  {
    ScrubHidesEverySecret(msg, secrets);
    ScrubIdempotent(msg, secrets);
    TruthyHides(excText, secrets);
    TruthyHides(stackInfo, secrets);
    TruthyHides(ScrubTruthy(stackInfo, secrets), secrets);
    TruthyHides(ScrubTruthy(excText, secrets), secrets);
    if Truthy(excText) { ScrubLeavesSomething(excText.value, secrets); }
    if exception.Some? {
      var formatted := Some(Scrub(exception.value, secrets));
      TruthyHides(formatted, secrets);
      TruthyHides(ScrubTruthy(formatted, secrets), secrets);
    }
  }
}
