/** `final_sanity_check`: a walk over the translated document that records a problem for every `None`
    and for every string in which a token was left behind, each named by its path from `root`. */
module Sanity {
  import opened Text
  import opened Document

  /** The lists one after the other. */
  function Flatten(xss: seq<seq<string>>): seq<string>
    decreases |xss|
  {
    if xss == [] then [] else Flatten(xss[..|xss| - 1]) + xss[|xss| - 1]
  }

  /** The problems `walk(x, path)` records, in the order it records them. */
  function Problems(n: Node, path: string): seq<string>
    decreases n
  {
    match n
    case Null => [path + " is None"]
    case Str(s) => if Contains(s, "__PH") || Contains(s, "__MT") then [path + " contiene token non sostituiti"] else []
    case Other(_) => []
    case Map(fs) => Flatten(FieldProblems(fs, path))
    case List(xs) => Flatten(ItemProblems(xs, path))
  }

  /** The problems under each value of a dictionary, at path `path.key`. */
  function FieldProblems(fs: seq<Field>, path: string): seq<seq<string>>
    decreases fs
  {
    seq(|fs|, i requires 0 <= i < |fs| => Problems(fs[i].value, path + "." + fs[i].key))
  }

  /** The problems under each item of a list, at path `path[i]`. */
  function ItemProblems(xs: seq<Node>, path: string): seq<seq<string>>
    decreases xs
  {
    seq(|xs|, i requires 0 <= i < |xs| => Problems(xs[i], path + "[" + Decimal(i) + "]"))
  }

  /** The document has no `None` anywhere and no string with `__PH` or `__MT` in it. */
  predicate Clean(n: Node)
    decreases n
  {
    match n
    case Null => false
    case Str(s) => !Contains(s, "__PH") && !Contains(s, "__MT")
    case Other(_) => true
    case Map(fs) => forall i :: 0 <= i < |fs| ==> Clean(fs[i].value)
    case List(xs) => forall i :: 0 <= i < |xs| ==> Clean(xs[i])
  }

  lemma {:induction false} FlattenEmpty(xss: seq<seq<string>>)
    ensures Flatten(xss) == [] <==> forall i :: 0 <= i < |xss| ==> xss[i] == []
    decreases |xss|
  {
    if xss != [] {
      var init := xss[..|xss| - 1];
      FlattenEmpty(init);
      assert forall i :: 0 <= i < |init| ==> init[i] == xss[i];
    }
  }

  lemma {:induction false} FlattenMember(xss: seq<seq<string>>, q: string)
    requires q in Flatten(xss)
    ensures exists i :: 0 <= i < |xss| && q in xss[i]
    decreases |xss|
  {
    var init := xss[..|xss| - 1];
    if q !in xss[|xss| - 1] {
      FlattenMember(init, q);
      var i :| 0 <= i < |init| && q in init[i];
      assert init[i] == xss[i];
    }
  }

  /** The audit finds nothing exactly when the document is clean. */
  lemma {:induction false} ProblemsClean(n: Node, path: string)
    ensures Problems(n, path) == [] <==> Clean(n)
    decreases n
  {
    match n
    case Map(fs) =>
      var xss := FieldProblems(fs, path);
      FlattenEmpty(xss);
      forall i | 0 <= i < |fs| ensures xss[i] == [] <==> Clean(fs[i].value) {
        ProblemsClean(fs[i].value, path + "." + fs[i].key);
      }
    case List(xs) =>
      var xss := ItemProblems(xs, path);
      FlattenEmpty(xss);
      forall i | 0 <= i < |xs| ensures xss[i] == [] <==> Clean(xs[i]) {
        ProblemsClean(xs[i], path + "[" + Decimal(i) + "]");
      }
    case _ =>
  }

  /** One step down the document: into the value of entry `i` of a dictionary, or into item `i` of a
      list. */
  datatype Step = IntoField(i: nat) | IntoItem(i: nat)

  /** Where a sequence of steps leads: a node together with the path text `walk` has built for it
      by then, or nowhere when a step does not fit the node it is taken from. */
  datatype Spot = Spot(node: Node, path: string) | Off

  /** Following `steps` from `n`, whose path text is `path`: a dictionary step appends `.key`, a list
      step appends `[i]`. */
  function Follow(n: Node, path: string, steps: seq<Step>): Spot
    decreases |steps|
  {
    if steps == [] then Spot(n, path)
    else match steps[0]
      case IntoField(i) =>
        if n.Map? && i < |n.fields| then Follow(n.fields[i].value, path + "." + n.fields[i].key, steps[1..]) else Off
      case IntoItem(i) =>
        if n.List? && i < |n.items| then Follow(n.items[i], path + "[" + Decimal(i) + "]", steps[1..]) else Off
  }

  /** `q` is the problem the audit stands for at `sp`: `None` there, or a string with a token left in
      it. */
  predicate Flags(sp: Spot, q: string) {
    && sp.Spot?
    && (|| (sp.node.Null? && q == sp.path + " is None")
        || (sp.node.Str? && (Contains(sp.node.s, "__PH") || Contains(sp.node.s, "__MT"))
            && q == sp.path + " contiene token non sostituiti"))
  }

  /** A problem under `path` names a `None`, or a string with a token left in it, that some sequence
      of `.key` and `[i]` steps leads to from `path`; its path starts with `path`. */
  lemma {:induction false} ProblemPath(n: Node, path: string, q: string)
    requires q in Problems(n, path)
    ensures path <= q
    ensures exists steps :: Flags(Follow(n, path, steps), q)
    decreases n, 1
  {
    match n
    case Map(fs) =>
      FlattenMember(FieldProblems(fs, path), q);
      var i :| 0 <= i < |fs| && q in FieldProblems(fs, path)[i];
      ProblemPathField(fs, path, i, q);
    case List(xs) =>
      FlattenMember(ItemProblems(xs, path), q);
      var i :| 0 <= i < |xs| && q in ItemProblems(xs, path)[i];
      ProblemPathItem(xs, path, i, q);
    case Other(_) =>
      assert false;
    case _ =>
      assert Follow(n, path, []) == Spot(n, path);
  }

  /** The case of `ProblemPath` for a problem under entry `i` of a dictionary. */
  lemma {:induction false} ProblemPathField(fs: seq<Field>, path: string, i: nat, q: string)
    requires i < |fs| && q in Problems(fs[i].value, path + "." + fs[i].key)
    ensures path <= q && exists steps :: Flags(Follow(Map(fs), path, steps), q)
    decreases Map(fs), 0
  {
    var sub := path + "." + fs[i].key;
    assert fs[i] in fs;
    ProblemPath(fs[i].value, sub, q);
    PrefixTrans(path, sub, q);
    var tail :| Flags(Follow(fs[i].value, sub, tail), q);
    var steps := [IntoField(i)] + tail;
    assert steps[0] == IntoField(i) && steps[1..] == tail;
    assert Follow(Map(fs), path, steps) == Follow(fs[i].value, sub, tail);
  }

  /** The case of `ProblemPath` for a problem under item `i` of a list. */
  lemma {:induction false} ProblemPathItem(xs: seq<Node>, path: string, i: nat, q: string)
    requires i < |xs| && q in Problems(xs[i], path + "[" + Decimal(i) + "]")
    ensures path <= q && exists steps :: Flags(Follow(List(xs), path, steps), q)
    decreases List(xs), 0
  {
    var sub := path + "[" + Decimal(i) + "]";
    assert xs[i] in xs;
    ProblemPath(xs[i], sub, q);
    PrefixTrans(path, sub, q);
    var tail :| Flags(Follow(xs[i], sub, tail), q);
    var steps := [IntoItem(i)] + tail;
    assert steps[0] == IntoItem(i) && steps[1..] == tail;
    assert Follow(List(xs), path, steps) == Follow(xs[i], sub, tail);
  }

  /** Conversely, every `None` and every string with a token left in it, wherever it is reached,
      is reported, under the path of the steps that lead to it. */
  lemma {:induction false} ProblemLeaves(n: Node, path: string, steps: seq<Step>, q: string)
    requires Flags(Follow(n, path, steps), q)
    ensures q in Problems(n, path)
    decreases |steps|
  {
    if steps != [] {
      match steps[0]
      case IntoField(i) =>
        var fs := n.fields;
        var sub := path + "." + fs[i].key;
        ProblemLeaves(fs[i].value, sub, steps[1..], q);
        FlattenHas(FieldProblems(fs, path), i, q);
      case IntoItem(i) =>
        var xs := n.items;
        var sub := path + "[" + Decimal(i) + "]";
        ProblemLeaves(xs[i], sub, steps[1..], q);
        FlattenHas(ItemProblems(xs, path), i, q);
    }
  }

  lemma {:induction false} FlattenHas(xss: seq<seq<string>>, i: nat, q: string)
    requires i < |xss| && q in xss[i]
    ensures q in Flatten(xss)
    decreases |xss|
  {
    if i < |xss| - 1 {
      FlattenHas(xss[..|xss| - 1], i, q);
    }
  }

  lemma {:induction false} PrefixTrans(a: string, b: string, c: string)
    requires a <= b && b <= c
    ensures a <= c
  {
    assert c[..|a|] == b[..|a|];
  }

  // ---------------------------------------------------------------------------------------------
  // The imperative form

  /** The `problems` list that `walk` appends to. */
  class Audit {
    var problems: seq<string>

    constructor ()
      ensures problems == []
    {
      problems := [];
    }

    /** `walk(x, path)`. */
    method Walk(x: Node, path: string)
      modifies this
      ensures problems == old(problems) + Problems(x, path)
      decreases x
    {
      match x
      case Null =>
        problems := problems + [path + " is None"];
      case Str(s) =>
        if Contains(s, "__PH") || Contains(s, "__MT") {
          problems := problems + [path + " contiene token non sostituiti"];
        } else {
          assert problems == problems + [];
        }
      case Other(_) =>
        assert problems == problems + [];
      case Map(fs) =>
        ghost var xss := FieldProblems(fs, path);
        var i := 0;
        while i < |fs|
          invariant 0 <= i <= |fs|
          invariant problems == old(problems) + Flatten(xss[..i])
        {
          Walk(fs[i].value, path + "." + fs[i].key);
          assert xss[..i + 1][..i] == xss[..i];
          AppendAssoc(old(problems), Flatten(xss[..i]), xss[i]);
          i := i + 1;
        }
        assert xss[..|fs|] == xss;
      case List(xs) =>
        ghost var xss := ItemProblems(xs, path);
        var i := 0;
        while i < |xs|
          invariant 0 <= i <= |xs|
          invariant problems == old(problems) + Flatten(xss[..i])
        {
          Walk(xs[i], path + "[" + Decimal(i) + "]");
          assert xss[..i + 1][..i] == xss[..i];
          AppendAssoc(old(problems), Flatten(xss[..i]), xss[i]);
          i := i + 1;
        }
        assert xss[..|xs|] == xss;
    }
  }

  /** `final_sanity_check(obj)`: true exactly when the walk from `root` recorded no problem, that is,
      when the document is clean. */
  method FinalSanityCheck(obj: Node) returns (ok: bool)
    ensures ok <==> Problems(obj, "root") == []
    ensures ok <==> Clean(obj)
  {
    var audit := new Audit();
    audit.Walk(obj, "root");
    ProblemsClean(obj, "root");
    ok := audit.problems == [];
  }
}
