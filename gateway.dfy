/** `translate_one`: the engines that are installed are tried in a fixed order, each up to
    `MAX_RETRIES` times, and the first answer that comes back is the translation.

    The engines themselves are outside the model. A `Service` stands for all of them: it is told
    which engine is asked, the text, the target language and how many engine calls have been made so
    far (the clock), so that the same request may fail now and succeed later, as a network service
    does. A call that times out is a `Failure` like any other. */
module Gateway {
  import opened Text

  /** What a call hands back: a translated text, or an error (a raised exception, a time-out). */
  datatype Outcome = Success(text: string) | Failure(error: string)

  datatype EngineId = Googletrans | DeepTranslator

  /** The engines, asked as `service(engine, text, dest, clock)`. */
  type Service = (EngineId, string, string, nat) -> Outcome

  /** `MAX_RETRIES`. */
  const MaxRetries: nat := 3

  /** The error raised when no engine is installed. */
  const NoEngineError: string :=
    "Nessun motore di traduzione disponibile (installa googletrans o deep-translator)"

  /** The engine list of `translate_one`: the engines whose library could be imported, googletrans
      first. */
  function Engines(googletrans: bool, deepTranslator: bool): (es: seq<EngineId>)
    ensures Googletrans in es <==> googletrans
    ensures DeepTranslator in es <==> deepTranslator
    ensures forall i, j :: 0 <= i < j < |es| ==> es[i] == Googletrans && es[j] == DeepTranslator
  {
    (if googletrans then [Googletrans] else []) + (if deepTranslator then [DeepTranslator] else [])
  }

  // ---------------------------------------------------------------------------------------------
  // The attempts in the order they are made

  function Repeat(e: EngineId, k: nat): seq<EngineId>
    decreases k
  {
    if k == 0 then [] else [e] + Repeat(e, k - 1)
  }

  /** Every engine in turn, each `MaxRetries` times. */
  function Schedule(engines: seq<EngineId>): seq<EngineId>
    decreases |engines|
  {
    if engines == [] then [] else Repeat(engines[0], MaxRetries) + Schedule(engines[1..])
  }

  lemma {:induction false} RepeatSpec(e: EngineId, k: nat)
    ensures |Repeat(e, k)| == k && forall m :: 0 <= m < k ==> Repeat(e, k)[m] == e
    decreases k
  {
    if k > 0 {
      RepeatSpec(e, k - 1);
    }
  }

  /** Attempt `m` goes to engine number `m / MaxRetries`. */
  lemma {:induction false} ScheduleSpec(engines: seq<EngineId>)
    ensures |Schedule(engines)| == MaxRetries * |engines|
    ensures forall m :: 0 <= m < MaxRetries * |engines| ==> Schedule(engines)[m] == engines[m / MaxRetries]
    decreases |engines|
  {
    if engines != [] {
      var head, tail := Repeat(engines[0], MaxRetries), engines[1..];
      RepeatSpec(engines[0], MaxRetries);
      ScheduleSpec(tail);
      var S := Schedule(engines);
      assert S == head + Schedule(tail);
      forall m | 0 <= m < MaxRetries * |engines|
        ensures S[m] == engines[m / MaxRetries]
      {
        if m >= MaxRetries {
          assert S[m] == Schedule(tail)[m - MaxRetries];
          assert (m - MaxRetries) / MaxRetries + 1 == m / MaxRetries;
        }
      }
    }
  }

  /** The attempts of `sched` made one after the other from `clock` on, up to the first success;
      `last` is the error of the latest failed attempt. Also gives the clock afterwards. */
  function Run(service: Service, sched: seq<EngineId>, text: string, dest: string, clock: nat, last: string)
    : (Outcome, nat)
    decreases |sched|
  {
    if sched == [] then (Failure(last), clock)
    else match service(sched[0], text, dest, clock)
      case Success(t) => (Success(t), clock + 1)
      case Failure(e) => Run(service, sched[1..], text, dest, clock + 1, e)
  }

  /** Every attempt of `sched` before number `j` failed. */
  predicate FailsBefore(service: Service, sched: seq<EngineId>, text: string, dest: string, clock: nat, j: nat)
    requires j <= |sched|
  {
    forall m :: 0 <= m < j ==> service(sched[m], text, dest, clock + m).Failure?
  }

  /** A successful `Run` returns the first attempt that succeeds, with the clock just after it. */
  lemma {:induction false} RunSucceeds(service: Service, sched: seq<EngineId>, text: string, dest: string, clock: nat, last: string)
    requires Run(service, sched, text, dest, clock, last).0.Success?
    ensures exists j :: (0 <= j < |sched| && FailsBefore(service, sched, text, dest, clock, j)
      && service(sched[j], text, dest, clock + j) == Run(service, sched, text, dest, clock, last).0
      && Run(service, sched, text, dest, clock, last).1 == clock + j + 1)
    decreases |sched|
  {
    var o := service(sched[0], text, dest, clock);
    if o.Failure? {
      var tail := sched[1..];
      RunSucceeds(service, tail, text, dest, clock + 1, o.error);
      var j :| 0 <= j < |tail| && FailsBefore(service, tail, text, dest, clock + 1, j)
        && service(tail[j], text, dest, clock + 1 + j) == Run(service, tail, text, dest, clock + 1, o.error).0
        && Run(service, tail, text, dest, clock + 1, o.error).1 == clock + 1 + j + 1;
      FailsBeforeCons(service, sched, text, dest, clock, j);
      assert tail[j] == sched[j + 1];
    }
  }

  /** A failed `Run` has used every attempt, all of which failed, and reports the error of the last
      one (or `last` when there was none). */
  lemma {:induction false} RunFails(service: Service, sched: seq<EngineId>, text: string, dest: string, clock: nat, last: string)
    requires Run(service, sched, text, dest, clock, last).0.Failure?
    ensures FailsBefore(service, sched, text, dest, clock, |sched|)
    ensures Run(service, sched, text, dest, clock, last).1 == clock + |sched|
    ensures Run(service, sched, text, dest, clock, last).0.error ==
      if sched == [] then last else service(sched[|sched| - 1], text, dest, clock + |sched| - 1).error
    decreases |sched|
  {
    if sched != [] {
      var o := service(sched[0], text, dest, clock);
      var tail := sched[1..];
      RunFails(service, tail, text, dest, clock + 1, o.error);
      FailsBeforeCons(service, sched, text, dest, clock, |tail|);
      if tail != [] {
        assert tail[|tail| - 1] == sched[|sched| - 1];
      }
    }
  }

  /** A failed first attempt followed by `j` failed ones is `j + 1` failed attempts. */
  lemma {:induction false} FailsBeforeCons(service: Service, sched: seq<EngineId>, text: string, dest: string, clock: nat, j: nat)
    requires j < |sched| && service(sched[0], text, dest, clock).Failure?
    requires FailsBefore(service, sched[1..], text, dest, clock + 1, j)
    ensures FailsBefore(service, sched, text, dest, clock, j + 1)
  {
    var tail := sched[1..];
    forall m | 0 < m < j + 1 ensures service(sched[m], text, dest, clock + m).Failure? {
      assert tail[m - 1] == sched[m];
      assert service(tail[m - 1], text, dest, clock + 1 + (m - 1)).Failure?;
    }
  }

  // ---------------------------------------------------------------------------------------------
  // translate_one

  /** What `translate_one(text, dest)` does: no engine is an immediate error; otherwise the attempts of
      the schedule are made in order. */
  function TranslateOneSpec(service: Service, engines: seq<EngineId>, text: string, dest: string, clock: nat)
    : (Outcome, nat)
  {
    if engines == [] then (Failure(NoEngineError), clock)
    else Run(service, Schedule(engines), text, dest, clock, "")
  }

  /** Attempt number `m` of `translate_one` started at `clock`. */
  function Attempt(service: Service, engines: seq<EngineId>, text: string, dest: string, clock: nat, m: nat): Outcome
    requires m < MaxRetries * |engines|
  {
    service(engines[m / MaxRetries], text, dest, clock + m)
  }

  /** The fallback of `translate_one`: with no engine it fails at once without calling anything;
      otherwise it returns the first attempt that succeeds, the attempts going to the engines in
      list order, `MaxRetries` to each; when all of them fail it fails with the error of the last
      one. */
  lemma {:induction false} TranslateOneFallback(service: Service, engines: seq<EngineId>, text: string, dest: string, clock: nat)
    ensures var (r, c) := TranslateOneSpec(service, engines, text, dest, clock);
      && (engines == [] ==> r == Failure(NoEngineError) && c == clock)
      && (r.Success? ==>
            exists j :: 0 <= j < MaxRetries * |engines| && c == clock + j + 1
              && Attempt(service, engines, text, dest, clock, j) == r
              && forall m :: 0 <= m < j ==> Attempt(service, engines, text, dest, clock, m).Failure?)
      && (engines != [] && r.Failure? ==>
            && c == clock + MaxRetries * |engines|
            && (forall m :: 0 <= m < MaxRetries * |engines| ==> Attempt(service, engines, text, dest, clock, m).Failure?)
            && r == Attempt(service, engines, text, dest, clock, MaxRetries * |engines| - 1))
  {
    if engines != [] {
      var sched := Schedule(engines);
      ScheduleSpec(engines);
      var (r, c) := Run(service, sched, text, dest, clock, "");
      if r.Success? {
        RunSucceeds(service, sched, text, dest, clock, "");
        var j :| 0 <= j < |sched| && FailsBefore(service, sched, text, dest, clock, j)
          && service(sched[j], text, dest, clock + j) == r && c == clock + j + 1;
        assert Attempt(service, engines, text, dest, clock, j) == r;
        assert forall m :: 0 <= m < j ==> Attempt(service, engines, text, dest, clock, m).Failure? by {
          forall m | 0 <= m < j ensures Attempt(service, engines, text, dest, clock, m).Failure? {
            assert service(sched[m], text, dest, clock + m).Failure?;
          }
        }
      } else {
        RunFails(service, sched, text, dest, clock, "");
        var n := |sched|;
        assert Attempt(service, engines, text, dest, clock, n - 1) == service(sched[n - 1], text, dest, clock + n - 1);
        forall m | 0 <= m < n ensures Attempt(service, engines, text, dest, clock, m).Failure? {
          assert service(sched[m], text, dest, clock + m).Failure?;
        }
      }
    }
  }

  lemma {:induction false} RepeatStep(e: EngineId, k: nat, rest: seq<EngineId>)
    requires k > 0
    ensures (Repeat(e, k) + rest)[0] == e && (Repeat(e, k) + rest)[1..] == Repeat(e, k - 1) + rest
  {
    assert Repeat(e, k) == [e] + Repeat(e, k - 1);
    AppendAssoc([e], Repeat(e, k - 1), rest);
  }

  /** `translate_one(masked_text, dest)`, with the clock after the calls it made. */
  method TranslateOne(service: Service, engines: seq<EngineId>, text: string, dest: string, clock: nat)
    returns (r: Outcome, clock': nat)
    ensures (r, clock') == TranslateOneSpec(service, engines, text, dest, clock)
  {
    if engines == [] {
      return Failure(NoEngineError), clock;
    }
    ghost var goal := TranslateOneSpec(service, engines, text, dest, clock);
    var last := "";
    clock' := clock;
    for i := 0 to |engines|
      invariant goal == Run(service, Schedule(engines[i..]), text, dest, clock', last)
    {
      assert engines[i..][1..] == engines[i + 1..];
      var attempt := 0;
      while attempt < MaxRetries
        invariant 0 <= attempt <= MaxRetries
        invariant goal == Run(service, Repeat(engines[i], MaxRetries - attempt) + Schedule(engines[i + 1..]), text, dest, clock', last)
      {
        RepeatStep(engines[i], MaxRetries - attempt, Schedule(engines[i + 1..]));
        attempt := attempt + 1;
        var o := service(engines[i], text, dest, clock');
        clock' := clock' + 1;
        if o.Success? {
          return o, clock';
        }
        last := o.error;
      }
      assert Repeat(engines[i], 0) + Schedule(engines[i + 1..]) == Schedule(engines[i + 1..]);
    }
    assert engines[|engines|..] == [];
    r := Failure(last);
  }
}
