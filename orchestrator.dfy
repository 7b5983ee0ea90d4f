/** `translate_string`: one string of the plugin file, masked, sent to `translate_one` up to
    `max_retries` times and unmasked again, with one of the two `PROGRESS` counters bumped. */
module Orchestrator {
  import opened Text
  import opened Tokens
  import opened Masking
  import opened Gateway
  import opened Terms

  /** The `PROGRESS` counter a call bumps. */
  datatype Counter = Translated | Skipped

  /** What `translate_string` comes to: the returned string, the counter it bumped, the engine clock
      after it, and how many times it called `translate_one`. */
  datatype Report = Report(text: string, counter: Counter, clock: nat, calls: nat)

  /** `not s.strip()`: the string is empty or all whitespace. */
  predicate IsBlank(s: string) {
    forall i :: 0 <= i < |s| ==> IsSpace(s[i])
  }

  /** The retry loop, with `left` attempts to go and `calls` made so far: the first translation that
      comes back is unmasked and returned; when the attempts run out the unmasked masked text, which
      is what `last_result` holds, is returned. */
  function Retry(service: Service, engines: seq<EngineId>, masked: string, mapping: seq<Entry>, dest: string,
                 left: int, clock: nat, calls: nat): Report
    decreases if left < 0 then 0 else left
  {
    if left <= 0 then Report(Unmask(masked, mapping), Skipped, clock, calls)
    else
      var (o, c) := TranslateOneSpec(service, engines, masked, dest, clock);
      if o.Success? then Report(Unmask(o.text, mapping), Translated, c, calls + 1)
      else Retry(service, engines, masked, mapping, dest, left - 1, c, calls + 1)
  }

  /** `translate_string(s, dest, max_retries)` started when the engines have been called `clock`
      times. */
  function TranslateStringSpec(service: Service, engines: seq<EngineId>, s: string, dest: string,
                               maxRetries: int, clock: nat): Report
  {
    if IsBlank(s) then Report(s, Skipped, clock, 0)
    else SendMasked(service, engines, Mask(s, 0).0, Mask(s, 0).1, dest, maxRetries, clock)
  }

  /** The part of `translate_string` after the masking: a text of nothing but tokens is not sent. */
  function SendMasked(service: Service, engines: seq<EngineId>, masked: string, mapping: seq<Entry>, dest: string,
                      maxRetries: int, clock: nat): Report
  {
    if TokensOnly(masked) then Report(Unmask(masked, mapping), Skipped, clock, 0)
    else Retry(service, engines, masked, mapping, dest, maxRetries, clock, 0)
  }

  /** The engine clock before call number `i` of a retry loop that starts at `clock`: each call of
      `translate_one` moves it on by the attempts that call made. */
  function CallClock(service: Service, engines: seq<EngineId>, masked: string, dest: string, clock: nat, i: nat): nat
    decreases i
  {
    if i == 0 then clock
    else CallClock(service, engines, masked, dest, TranslateOneSpec(service, engines, masked, dest, clock).1, i - 1)
  }

  /** What call number `i` of that loop returns. */
  function CallOutcome(service: Service, engines: seq<EngineId>, masked: string, dest: string, clock: nat, i: nat): Outcome {
    TranslateOneSpec(service, engines, masked, dest, CallClock(service, engines, masked, dest, clock, i)).0
  }

  /** Call number `i` is the first of the loop to succeed. */
  predicate FirstSuccess(service: Service, engines: seq<EngineId>, masked: string, dest: string, clock: nat, i: nat) {
    && CallOutcome(service, engines, masked, dest, clock, i).Success?
    && forall m :: 0 <= m < i ==> CallOutcome(service, engines, masked, dest, clock, m).Failure?
  }

  /** What a retry loop of `n` attempts, with `calls` made before it, promises about its report `r`,
      in terms of the numbered calls: a translation is the unmasked text of the first call that
      succeeded; a skip means that all of them failed, and gives the unmasked masked text after
      using every attempt. */
  predicate Reports(r: Report, service: Service, engines: seq<EngineId>, masked: string, mapping: seq<Entry>,
                    dest: string, n: nat, clock: nat, calls: nat)
  {
    && (r.counter == Translated ==>
          exists i :: 0 <= i < n && FirstSuccess(service, engines, masked, dest, clock, i)
            && r.text == Unmask(CallOutcome(service, engines, masked, dest, clock, i).text, mapping)
            && r.clock == CallClock(service, engines, masked, dest, clock, i + 1)
            && r.calls == calls + i + 1)
    && (r.counter == Skipped ==>
          && (forall i :: 0 <= i < n ==> CallOutcome(service, engines, masked, dest, clock, i).Failure?)
          && r.text == Unmask(masked, mapping)
          && r.clock == CallClock(service, engines, masked, dest, clock, n)
          && r.calls == calls + n)
  }

  /** The retry loop makes the calls `0 .. left - 1` one after the other and stops at the first that
      succeeds. It reports a translation exactly when one of those calls succeeded, and then returns
      the unmasked text of the first success; it reports a skip exactly when all of them failed, and
      then returns the unmasked masked text after using every attempt. It never turns the clock
      back. */
  lemma {:induction false} RetrySpec(service: Service, engines: seq<EngineId>, masked: string, mapping: seq<Entry>,
                                     dest: string, left: int, clock: nat, calls: nat)
    ensures var r := Retry(service, engines, masked, mapping, dest, left, clock, calls);
      var n := if left < 0 then 0 else left;
      && clock <= r.clock
      && calls <= r.calls <= calls + n
      && (r.counter == Translated <==>
            exists i :: 0 <= i < n && CallOutcome(service, engines, masked, dest, clock, i).Success?)
      && (r.counter == Skipped <==>
            forall i :: 0 <= i < n ==> CallOutcome(service, engines, masked, dest, clock, i).Failure?)
      && (r.counter == Translated ==>
            exists i :: 0 <= i < n && FirstSuccess(service, engines, masked, dest, clock, i)
              && r.text == Unmask(CallOutcome(service, engines, masked, dest, clock, i).text, mapping)
              && r.clock == CallClock(service, engines, masked, dest, clock, i + 1)
              && r.calls == calls + i + 1)
      && (r.counter == Skipped ==>
            && r.text == Unmask(masked, mapping)
            && r.clock == CallClock(service, engines, masked, dest, clock, n)
            && r.calls == calls + n)
  {
    RetryBounds(service, engines, masked, mapping, dest, left, clock, calls);
    if left < 0 {
      RetryCalls(service, engines, masked, mapping, dest, 0, clock, calls);
    } else {
      RetryCalls(service, engines, masked, mapping, dest, left, clock, calls);
    }
  }

  /** The retry loop makes at most `left` calls and never turns the clock back. */
  lemma {:induction false} RetryBounds(service: Service, engines: seq<EngineId>, masked: string, mapping: seq<Entry>,
                                       dest: string, left: int, clock: nat, calls: nat)
    ensures var r := Retry(service, engines, masked, mapping, dest, left, clock, calls);
      clock <= r.clock && calls <= r.calls <= calls + (if left < 0 then 0 else left)
    decreases if left < 0 then 0 else left
  {
    if left > 0 {
      var (o, c) := TranslateOneSpec(service, engines, masked, dest, clock);
      TranslateOneClock(service, engines, masked, dest, clock);
      if o.Failure? {
        RetryBounds(service, engines, masked, mapping, dest, left - 1, c, calls + 1);
      }
    }
  }

  lemma {:induction false} RetryCalls(service: Service, engines: seq<EngineId>, masked: string, mapping: seq<Entry>,
                                      dest: string, n: nat, clock: nat, calls: nat)
    ensures Reports(Retry(service, engines, masked, mapping, dest, n, clock, calls), service, engines, masked, mapping,
                    dest, n, clock, calls)
    decreases n
  {
    if n > 0 {
      var o := CallOutcome(service, engines, masked, dest, clock, 0);
      var c := TranslateOneSpec(service, engines, masked, dest, clock).1;
      if o.Success? {
        assert Retry(service, engines, masked, mapping, dest, n, clock, calls) ==
          Report(Unmask(o.text, mapping), Translated, c, calls + 1);
        assert FirstSuccess(service, engines, masked, dest, clock, 0);
        assert CallClock(service, engines, masked, dest, clock, 1) == c;
      } else {
        RetryCalls(service, engines, masked, mapping, dest, n - 1, c, calls + 1);
        RetryCallsMiss(service, engines, masked, mapping, dest, n, clock, c, calls);
      }
    }
  }

  /** The step of `RetryCalls` where the first call fails. */
  lemma {:induction false} RetryCallsMiss(service: Service, engines: seq<EngineId>, masked: string, mapping: seq<Entry>,
                                          dest: string, n: nat, clock: nat, c: nat, calls: nat)
    requires n > 0 && CallOutcome(service, engines, masked, dest, clock, 0).Failure?
    requires c == TranslateOneSpec(service, engines, masked, dest, clock).1
    requires Reports(Retry(service, engines, masked, mapping, dest, n - 1, c, calls + 1), service, engines, masked, mapping,
                     dest, n - 1, c, calls + 1)
    ensures Reports(Retry(service, engines, masked, mapping, dest, n, clock, calls), service, engines, masked, mapping,
                    dest, n, clock, calls)
  {
    var r := Retry(service, engines, masked, mapping, dest, n - 1, c, calls + 1);
    assert Retry(service, engines, masked, mapping, dest, n, clock, calls) == r;
    ReportsShift(r, service, engines, masked, mapping, dest, n - 1, clock, c, calls);
  }

  /** A loop whose first call fails reports what the loop started after that call reports. */
  lemma {:induction false} ReportsShift(r: Report, service: Service, engines: seq<EngineId>, masked: string,
                                        mapping: seq<Entry>, dest: string, n: nat, clock: nat, c: nat, calls: nat)
    requires CallOutcome(service, engines, masked, dest, clock, 0).Failure?
    requires c == TranslateOneSpec(service, engines, masked, dest, clock).1
    requires Reports(r, service, engines, masked, mapping, dest, n, c, calls + 1)
    ensures Reports(r, service, engines, masked, mapping, dest, n + 1, clock, calls)
  {
    RetryShift(service, engines, masked, dest, clock, n);
    if r.counter == Translated {
      var i :| 0 <= i < n && FirstSuccess(service, engines, masked, dest, c, i)
        && r.text == Unmask(CallOutcome(service, engines, masked, dest, c, i).text, mapping)
        && r.clock == CallClock(service, engines, masked, dest, c, i + 1)
        && r.calls == calls + 1 + i + 1;
      ShiftFirstSuccess(service, engines, masked, dest, clock, i);
    } else {
      forall i | 0 <= i < n + 1 ensures CallOutcome(service, engines, masked, dest, clock, i).Failure? {
        if i > 0 {
          assert CallOutcome(service, engines, masked, dest, c, i - 1).Failure?;
        }
      }
    }
  }

  /** A first success one call later, after a failed first call. */
  lemma {:induction false} ShiftFirstSuccess(service: Service, engines: seq<EngineId>, masked: string, dest: string,
                                             clock: nat, i: nat)
    requires CallOutcome(service, engines, masked, dest, clock, 0).Failure?
    requires FirstSuccess(service, engines, masked, dest, TranslateOneSpec(service, engines, masked, dest, clock).1, i)
    ensures FirstSuccess(service, engines, masked, dest, clock, i + 1)
  {
    var c := TranslateOneSpec(service, engines, masked, dest, clock).1;
    RetryShift(service, engines, masked, dest, clock, i);
    forall m | 0 <= m < i + 1 ensures CallOutcome(service, engines, masked, dest, clock, m).Failure? {
      if m > 0 {
        assert CallOutcome(service, engines, masked, dest, c, m - 1).Failure?;
      }
    }
  }

  /** The calls of the loop after a first failed call are the calls of the loop started at the
      clock that call left behind, one number on. */
  lemma {:induction false} RetryShift(service: Service, engines: seq<EngineId>, masked: string, dest: string, clock: nat, n: nat)
    ensures var c := TranslateOneSpec(service, engines, masked, dest, clock).1;
      forall i :: 0 <= i <= n ==>
        && CallClock(service, engines, masked, dest, c, i) == CallClock(service, engines, masked, dest, clock, i + 1)
        && CallOutcome(service, engines, masked, dest, c, i) == CallOutcome(service, engines, masked, dest, clock, i + 1)
  {
  }

  /** A call of `translate_one` never turns the clock back. */
  lemma {:induction false} TranslateOneClock(service: Service, engines: seq<EngineId>, text: string, dest: string, clock: nat)
    ensures clock <= TranslateOneSpec(service, engines, text, dest, clock).1
  {
    TranslateOneFallback(service, engines, text, dest, clock);
  }

  /** Call number `i + 1` starts at the clock that call number `i` left behind. */
  lemma {:induction false} CallClockNext(service: Service, engines: seq<EngineId>, masked: string, dest: string,
                                         clock: nat, i: nat)
    ensures CallClock(service, engines, masked, dest, clock, i + 1) ==
      TranslateOneSpec(service, engines, masked, dest, CallClock(service, engines, masked, dest, clock, i)).1
    decreases i
  {
    if i > 0 {
      CallClockNext(service, engines, masked, dest, TranslateOneSpec(service, engines, masked, dest, clock).1, i - 1);
    }
  }

  /** The numbered calls never start before the loop did. */
  lemma {:induction false} CallClockGrows(service: Service, engines: seq<EngineId>, masked: string, dest: string,
                                          clock: nat, i: nat)
    ensures clock <= CallClock(service, engines, masked, dest, clock, i)
    decreases i
  {
    if i > 0 {
      TranslateOneClock(service, engines, masked, dest, clock);
      CallClockGrows(service, engines, masked, dest, TranslateOneSpec(service, engines, masked, dest, clock).1, i - 1);
    }
  }

  /** The outcomes of `translate_string`:
      - a blank string comes back as it is, and nothing is called;
      - a string that masks to nothing but tokens is not sent for translation and comes back
        unmasked;
      - `translate_one` is called at most `max_retries` times;
      - otherwise the string is translated exactly when one of the calls `0 .. max_retries - 1`
        succeeds, and comes back as the unmasked text of the first success; it is skipped exactly
        when all of them fail, and comes back as the unmasked masked text, never in masked form;
      and in every case exactly one of the two counters is bumped. */
  lemma {:induction false} TranslateStringOutcomes(service: Service, engines: seq<EngineId>, s: string, dest: string,
                                                   maxRetries: int, clock: nat)
    ensures var r := TranslateStringSpec(service, engines, s, dest, maxRetries, clock);
      var masked, mapping := Mask(s, 0).0, Mask(s, 0).1;
      var n := if maxRetries < 0 then 0 else maxRetries;
      && (IsBlank(s) ==> r == Report(s, Skipped, clock, 0))
      && (!IsBlank(s) && TokensOnly(masked) ==> r == Report(Unmask(masked, mapping), Skipped, clock, 0))
      && r.calls <= n && clock <= r.clock
      && (r.counter == Translated ==>
            exists c: nat, t :: clock <= c && TranslateOneSpec(service, engines, masked, dest, c) == (Success(t), r.clock)
              && r.text == Unmask(t, mapping))
      && (r.counter == Skipped && !IsBlank(s) ==> r.text == Unmask(masked, mapping))
      && (!IsBlank(s) && !TokensOnly(masked) ==>
            && (r.counter == Translated <==>
                  exists i :: 0 <= i < n && CallOutcome(service, engines, masked, dest, clock, i).Success?)
            && (r.counter == Skipped <==>
                  forall i :: 0 <= i < n ==> CallOutcome(service, engines, masked, dest, clock, i).Failure?)
            && (r.counter == Translated ==>
                  exists i :: 0 <= i < n && FirstSuccess(service, engines, masked, dest, clock, i)
                    && r.text == Unmask(CallOutcome(service, engines, masked, dest, clock, i).text, mapping))
            && (r.counter == Skipped ==> r.calls == n))
  {
    if !IsBlank(s) {
      var masked, mapping := Mask(s, 0).0, Mask(s, 0).1;
      if !TokensOnly(masked) {
        var r := Retry(service, engines, masked, mapping, dest, maxRetries, clock, 0);
        RetrySpec(service, engines, masked, mapping, dest, maxRetries, clock, 0);
        if r.counter == Translated {
          var n := if maxRetries < 0 then 0 else maxRetries;
          var i :| 0 <= i < n && FirstSuccess(service, engines, masked, dest, clock, i)
            && r.text == Unmask(CallOutcome(service, engines, masked, dest, clock, i).text, mapping)
            && r.clock == CallClock(service, engines, masked, dest, clock, i + 1);
          var c := CallClock(service, engines, masked, dest, clock, i);
          CallClockGrows(service, engines, masked, dest, clock, i);
          CallClockNext(service, engines, masked, dest, clock, i);
          assert TranslateOneSpec(service, engines, masked, dest, c) ==
            (Success(CallOutcome(service, engines, masked, dest, clock, i).text), r.clock);
        }
      }
    }
  }

  /** What masking protects is given back: whenever `translate_string` does not translate a string
      without `PH`/`MT` markers, it returns that very string. */
  lemma {:induction false} SkippedIsOriginal(service: Service, engines: seq<EngineId>, s: string, dest: string,
                                             maxRetries: int, clock: nat)
    requires NoMarker(s)
    ensures TranslateStringSpec(service, engines, s, dest, maxRetries, clock).counter == Skipped ==>
      TranslateStringSpec(service, engines, s, dest, maxRetries, clock).text == s
  {
    TranslateStringOutcomes(service, engines, s, dest, maxRetries, clock);
    RoundTrip(s);
  }

  /** With every engine failing on every call, `translate_one` always fails. */
  lemma {:induction false} AllFailingEngines(service: Service, engines: seq<EngineId>, text: string, dest: string, clock: nat)
    requires forall e, t, d, c :: service(e, t, d, c).Failure?
    ensures TranslateOneSpec(service, engines, text, dest, clock).0.Failure?
  {
    TranslateOneFallback(service, engines, text, dest, clock);
  }

  /** The translator degrades to the original text: when every engine fails on every call, a string
      without `PH`/`MT` markers is skipped and comes back exactly as it was given. */
  lemma {:induction false} FailuresGiveOriginal(service: Service, engines: seq<EngineId>, s: string, dest: string,
                                                maxRetries: int, clock: nat)
    requires NoMarker(s)
    requires forall e, t, d, c :: service(e, t, d, c).Failure?
    ensures TranslateStringSpec(service, engines, s, dest, maxRetries, clock).counter == Skipped
    ensures TranslateStringSpec(service, engines, s, dest, maxRetries, clock).text == s
  {
    var masked := Mask(s, 0).0;
    TranslateStringOutcomes(service, engines, s, dest, maxRetries, clock);
    forall i: nat ensures CallOutcome(service, engines, masked, dest, clock, i).Failure? {
      AllFailingEngines(service, engines, masked, dest, CallClock(service, engines, masked, dest, clock, i));
    }
    SkippedIsOriginal(service, engines, s, dest, maxRetries, clock);
  }

  // ---------------------------------------------------------------------------------------------
  // The imperative form

  /** The global `PROGRESS` dictionary. */
  class Progress {
    var translated: nat
    var skipped: nat

    constructor ()
      ensures translated == 0 && skipped == 0
    {
      translated, skipped := 0, 0;
    }
  }

  /** `translate_string(s, dest, max_retries)`, bumping the counters of `progress`. */
  method TranslateString(progress: Progress, service: Service, engines: seq<EngineId>, s: string, dest: string,
                         maxRetries: int, clock: nat)
    returns (r: string, clock': nat)
    modifies progress
    ensures var rep := TranslateStringSpec(service, engines, s, dest, maxRetries, clock);
      && r == rep.text && clock' == rep.clock
      && progress.translated == old(progress.translated) + (if rep.counter == Translated then 1 else 0)
      && progress.skipped == old(progress.skipped) + (if rep.counter == Skipped then 1 else 0)
  {
    if IsBlank(s) {
      progress.skipped := progress.skipped + 1;
      return s, clock;
    }
    var mapping := new TokenMap();
    var masked := MaskText(s, mapping);
    MaskFreshMask(s);
    r, clock' := TranslateMasked(progress, service, engines, masked, mapping, dest, maxRetries, clock);
  }

  /** The part of `translate_string` after the masking, with the mapping that the masking filled. */
  method TranslateMasked(progress: Progress, service: Service, engines: seq<EngineId>, masked: string, mapping: TokenMap,
                         dest: string, maxRetries: int, clock: nat)
    returns (r: string, clock': nat)
    modifies progress
    ensures var rep := SendMasked(service, engines, masked, mapping.entries, dest, maxRetries, clock);
      && r == rep.text && clock' == rep.clock
      && progress.translated == old(progress.translated) + (if rep.counter == Translated then 1 else 0)
      && progress.skipped == old(progress.skipped) + (if rep.counter == Skipped then 1 else 0)
  {
    if TokensOnly(masked) {
      progress.skipped := progress.skipped + 1;
      r := UnmaskText(masked, mapping);
      return r, clock;
    }
    ghost var M := mapping.entries;
    ghost var goal := Retry(service, engines, masked, M, dest, maxRetries, clock, 0);
    var lastResult := UnmaskText(masked, mapping);
    var attempt := 1;
    clock' := clock;
    while attempt <= maxRetries
      invariant 1 <= attempt
      invariant goal == Retry(service, engines, masked, M, dest, maxRetries - attempt + 1, clock', attempt - 1)
      invariant lastResult == Unmask(masked, M)
      invariant progress.translated == old(progress.translated) && progress.skipped == old(progress.skipped)
      decreases maxRetries - attempt
    {
      var o, c := TranslateOne(service, engines, masked, dest, clock');
      clock' := c;
      if o.Success? {
        r := UnmaskText(o.text, mapping);
        progress.translated := progress.translated + 1;
        return r, clock';
      }
      lastResult := UnmaskText(masked, mapping);
      attempt := attempt + 1;
    }
    progress.skipped := progress.skipped + 1;
    r := lastResult;
  }

  /** Masking from an empty mapping leaves exactly the entries of `Mask` in it. */
  lemma {:induction false} MaskFreshMask(s: string)
    ensures PutAll([], Mask(s, 0).1) == Mask(s, 0).1
  {
    MaskFresh(s, LowerTerms);
  }
}
