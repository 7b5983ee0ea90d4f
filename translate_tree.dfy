/** `translate_value`: every string of the document is passed through `translate_string`, dictionaries
    and lists are rebuilt around the results, and every other value is kept. The engine clock and
    the `PROGRESS` counters are carried from one string to the next in document order. */
module TranslateTree {
  import opened Document
  import opened Gateway
  import opened Orchestrator

  /** The two `PROGRESS` counters. */
  datatype Tally = Tally(translated: nat, skipped: nat)

  /** The engine clock and the counters, between two calls of `translate_string`. */
  datatype State = State(clock: nat, tally: Tally)

  function Bump(t: Tally, c: Counter): Tally {
    match c
    case Translated => Tally(t.translated + 1, t.skipped)
    case Skipped => Tally(t.translated, t.skipped + 1)
  }

  /** The strings bumped so far. */
  function Total(t: Tally): nat {
    t.translated + t.skipped
  }

  /** `translate_value(val, dest)`. */
  function TranslateValue(service: Service, engines: seq<EngineId>, n: Node, dest: string, st: State): (Node, State)
    decreases n
  {
    match n
    case Str(s) =>
      var rep := TranslateStringSpec(service, engines, s, dest, MaxRetries, st.clock);
      (Str(rep.text), State(rep.clock, Bump(st.tally, rep.counter)))
    case Map(fs) =>
      var (fs', st') := TranslateFields(service, engines, fs, dest, st);
      (Map(fs'), st')
    case List(xs) =>
      var (xs', st') := TranslateItems(service, engines, xs, dest, st);
      (List(xs'), st')
    case _ => (n, st)
  }

  /** A dictionary rebuilt with every value translated, keys and order kept. */
  function TranslateFields(service: Service, engines: seq<EngineId>, fs: seq<Field>, dest: string, st: State)
    : (seq<Field>, State)
    decreases fs
  {
    if fs == [] then ([], st)
    else
      var (v, st1) := TranslateValue(service, engines, fs[0].value, dest, st);
      var (rest, st2) := TranslateFields(service, engines, fs[1..], dest, st1);
      ([Field(fs[0].key, v)] + rest, st2)
  }

  /** A list rebuilt with every item translated. */
  function TranslateItems(service: Service, engines: seq<EngineId>, xs: seq<Node>, dest: string, st: State)
    : (seq<Node>, State)
    decreases xs
  {
    if xs == [] then ([], st)
    else
      var (v, st1) := TranslateValue(service, engines, xs[0], dest, st);
      var (rest, st2) := TranslateItems(service, engines, xs[1..], dest, st1);
      ([v] + rest, st2)
  }

  /** `translate_value` keeps the shape of the document, bumps one counter per string and never
      turns the clock back. */
  lemma {:induction false} TranslateValueShape(service: Service, engines: seq<EngineId>, n: Node, dest: string, st: State)
    ensures var (n', st') := TranslateValue(service, engines, n, dest, st);
      && SameShape(n, n')
      && Total(st'.tally) == Total(st.tally) + StringCount(n)
      && st.clock <= st'.clock
    decreases n
  {
    match n
    case Str(s) =>
      TranslateStringOutcomes(service, engines, s, dest, MaxRetries, st.clock);
    case Map(fs) =>
      TranslateFieldsShape(service, engines, fs, dest, st);
    case List(xs) =>
      TranslateItemsShape(service, engines, xs, dest, st);
    case _ =>
  }

  lemma {:induction false} TranslateFieldsShape(service: Service, engines: seq<EngineId>, fs: seq<Field>, dest: string, st: State)
    ensures var (fs', st') := TranslateFields(service, engines, fs, dest, st);
      && |fs'| == |fs|
      && (forall i :: 0 <= i < |fs| ==> fs'[i].key == fs[i].key && SameShape(fs[i].value, fs'[i].value))
      && Total(st'.tally) == Total(st.tally) + FieldsStringCount(fs)
      && st.clock <= st'.clock
    decreases fs
  {
    if fs != [] {
      var (v, st1) := TranslateValue(service, engines, fs[0].value, dest, st);
      var (rest, st2) := TranslateFields(service, engines, fs[1..], dest, st1);
      TranslateValueShape(service, engines, fs[0].value, dest, st);
      TranslateFieldsShape(service, engines, fs[1..], dest, st1);
      var fs' := [Field(fs[0].key, v)] + rest;
      forall i | 0 < i < |fs| ensures fs'[i].key == fs[i].key && SameShape(fs[i].value, fs'[i].value) {
        assert fs'[i] == rest[i - 1] && fs[i] == fs[1..][i - 1];
      }
    }
  }

  lemma {:induction false} TranslateItemsShape(service: Service, engines: seq<EngineId>, xs: seq<Node>, dest: string, st: State)
    ensures var (xs', st') := TranslateItems(service, engines, xs, dest, st);
      && |xs'| == |xs|
      && (forall i :: 0 <= i < |xs| ==> SameShape(xs[i], xs'[i]))
      && Total(st'.tally) == Total(st.tally) + ItemsStringCount(xs)
      && st.clock <= st'.clock
    decreases xs
  {
    if xs != [] {
      var (v, st1) := TranslateValue(service, engines, xs[0], dest, st);
      var (rest, st2) := TranslateItems(service, engines, xs[1..], dest, st1);
      TranslateValueShape(service, engines, xs[0], dest, st);
      TranslateItemsShape(service, engines, xs[1..], dest, st1);
      var xs' := [v] + rest;
      forall i | 0 < i < |xs| ensures SameShape(xs[i], xs'[i]) {
        assert xs'[i] == rest[i - 1] && xs[i] == xs[1..][i - 1];
      }
    }
  }
}
