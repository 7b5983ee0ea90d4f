/** A masked text described as a list of pieces: every character of the original that stays as it
    is, and every span that a token replaces. */
module Pieces {
  import opened Text
  import opened Tokens

  /** A character the masking keeps, or a span it replaces by the token number `n`. */
  datatype Piece = Lit(c: char) | Tok(kind: Kind, n: nat, orig: string)

  /** The piece as it stands in the masked text. */
  function Shown(p: Piece): string {
    match p
    case Lit(c) => [c]
    case Tok(k, n, _) => TokenString(k, n)
  }

  /** The piece as it stood in the original text. */
  function Original(p: Piece): string {
    match p
    case Lit(c) => [c]
    case Tok(_, _, o) => o
  }

  function Render(ps: seq<Piece>): string
    decreases |ps|
  {
    if ps == [] then [] else Shown(ps[0]) + Render(ps[1..])
  }

  function Expand(ps: seq<Piece>): string
    decreases |ps|
  {
    if ps == [] then [] else Original(ps[0]) + Expand(ps[1..])
  }

  /** The mapping entries the tokens among `ps` record, in order. */
  function EntriesOf(ps: seq<Piece>): seq<Entry>
    decreases |ps|
  {
    if ps == [] then []
    else (if ps[0].Tok? then [(Shown(ps[0]), ps[0].orig)] else []) + EntriesOf(ps[1..])
  }

  lemma {:induction false} PiecesConcat(a: seq<Piece>, b: seq<Piece>)
    ensures Render(a + b) == Render(a) + Render(b)
    ensures Expand(a + b) == Expand(a) + Expand(b)
    ensures EntriesOf(a + b) == EntriesOf(a) + EntriesOf(b)
  {
    RenderConcat(a, b);
    ExpandConcat(a, b);
    EntriesConcat(a, b);
  }

  lemma {:induction false} RenderConcat(a: seq<Piece>, b: seq<Piece>)
    ensures Render(a + b) == Render(a) + Render(b)
    decreases |a|
  {
    if a == [] {
      assert a + b == b;
    } else {
      assert (a + b)[0] == a[0] && (a + b)[1..] == a[1..] + b;
      RenderConcat(a[1..], b);
    }
  }

  lemma {:induction false} ExpandConcat(a: seq<Piece>, b: seq<Piece>)
    ensures Expand(a + b) == Expand(a) + Expand(b)
    decreases |a|
  {
    if a == [] {
      assert a + b == b;
    } else {
      assert (a + b)[0] == a[0] && (a + b)[1..] == a[1..] + b;
      ExpandConcat(a[1..], b);
    }
  }

  lemma {:induction false} EntriesConcat(a: seq<Piece>, b: seq<Piece>)
    ensures EntriesOf(a + b) == EntriesOf(a) + EntriesOf(b)
    decreases |a|
  {
    if a == [] {
      assert a + b == b;
    } else {
      assert (a + b)[0] == a[0] && (a + b)[1..] == a[1..] + b;
      EntriesConcat(a[1..], b);
    }
  }

  /** Where piece `j` of `ps` starts in the text the pieces expand to. */
  function Offset(ps: seq<Piece>, j: nat): nat
    requires j <= |ps|
  {
    |Expand(ps[..j])|
  }

  /** The pieces of `a + b` from position `|a|` on are those of `b`, their offsets moved on by what
      `a` expands to. */
  lemma {:induction false} OffsetConcat(a: seq<Piece>, b: seq<Piece>, j: nat)
    requires |a| <= j < |a| + |b|
    ensures (a + b)[j] == b[j - |a|]
    ensures Offset(a + b, j) == |Expand(a)| + Offset(b, j - |a|)
  {
    assert (a + b)[..j] == a + b[..j - |a|];
    ExpandConcat(a, b[..j - |a|]);
  }

  /** A piece starts inside the text the pieces expand to, where its original text stands. */
  lemma {:induction false} OffsetWithin(ps: seq<Piece>, j: nat)
    requires j < |ps|
    ensures Offset(ps, j) + |Original(ps[j])| <= |Expand(ps)|
    ensures Expand(ps)[Offset(ps, j)..Offset(ps, j) + |Original(ps[j])|] == Original(ps[j])
  {
    assert ps == ps[..j] + [ps[j]] + ps[j + 1..];
    ExpandConcat(ps[..j] + [ps[j]], ps[j + 1..]);
    ExpandConcat(ps[..j], [ps[j]]);
    assert Expand([ps[j]]) == Original(ps[j]) + Expand([]);
  }

  /** Every character of `x` kept as it is. */
  function Lits(x: string): seq<Piece>
    decreases |x|
  {
    if x == [] then [] else [Lit(x[0])] + Lits(x[1..])
  }

  /** Pieces that keep every character show and stand for the text itself and record nothing. */
  lemma {:induction false} LitsSpec(x: string)
    ensures Render(Lits(x)) == x && Expand(Lits(x)) == x && EntriesOf(Lits(x)) == []
    ensures AllLit(Lits(x)) && forall p :: p in Lits(x) ==> p.Lit?
    decreases |x|
  {
    if x != [] {
      var ps := Lits(x);
      LitsSpec(x[1..]);
      assert ps[1..] == Lits(x[1..]);
      assert x == [x[0]] + x[1..];
    }
  }


  /** The tokens of `ps` are numbered `n`, `n + 1`, … in order. */
  predicate Sequential(ps: seq<Piece>, n: nat)
    decreases |ps|
  {
    ps == [] || if ps[0].Tok? then ps[0].n == n && Sequential(ps[1..], n + 1) else Sequential(ps[1..], n)
  }

  /** Every token of `ps` is of kind `k` and stands for a text satisfying `good`. */
  predicate AllTok(ps: seq<Piece>, k: Kind, good: string -> bool) {
    forall p :: p in ps && p.Tok? ==> p.kind == k && good(p.orig)
  }

  /** The entries of sequentially numbered tokens carry the tokens numbered from `n`. */
  lemma {:induction false} SequentialEntries(ps: seq<Piece>, n: nat, k: Kind, good: string -> bool)
    requires Sequential(ps, n) && AllTok(ps, k, good)
    ensures var es := EntriesOf(ps);
      forall j :: 0 <= j < |es| ==> es[j].0 == TokenString(k, n + j) && good(es[j].1)
    decreases |ps|
  {
    if ps != [] {
      var rest := ps[1..];
      assert forall p :: p in rest ==> p in ps;
      var head := if ps[0].Tok? then [(Shown(ps[0]), ps[0].orig)] else [];
      assert EntriesOf(ps) == head + EntriesOf(rest);
      var es, es' := EntriesOf(ps), EntriesOf(rest);
      var m := if ps[0].Tok? then n + 1 else n;
      SequentialEntries(rest, m, k, good);
      forall j | 0 <= j < |es| ensures es[j].0 == TokenString(k, n + j) && good(es[j].1) {
        if j < |head| {
          assert ps[0] in ps;
        } else {
          assert es[j] == es'[j - |head|];
        }
      }
    }
  }

  // ---------------------------------------------------------------------------------------------
  // Where the entries land in the mapping

  /** `M` holds the entries `es` from position `n` on. */
  predicate Hosts(M: seq<Entry>, n: nat, es: seq<Entry>) {
    n + |es| <= |M| && M[n..n + |es|] == es
  }

  lemma {:induction false} HostsTail(M: seq<Entry>, n: nat, e: Entry, es: seq<Entry>)
    requires Hosts(M, n, [e] + es)
    ensures M[n] == e && Hosts(M, n + 1, es)
  {
    assert M[n..n + 1 + |es|][0] == e;
    assert M[n + 1..n + 1 + |es|] == M[n..n + 1 + |es|][1..];
  }

  /** `M` records every token of `ps` with its original text. */
  predicate Agrees(ps: seq<Piece>, M: seq<Entry>) {
    forall p :: p in ps && p.Tok? ==> p.n < |M| && M[p.n] == (TokenString(p.kind, p.n), p.orig)
  }

  lemma {:induction false} SequentialAgrees(ps: seq<Piece>, n: nat, M: seq<Entry>)
    requires Sequential(ps, n) && Hosts(M, n, EntriesOf(ps))
    ensures Agrees(ps, M)
    decreases |ps|
  {
    if ps != [] {
      var rest := ps[1..];
      assert forall p :: p in ps ==> p == ps[0] || p in rest;
      if ps[0].Tok? {
        HostsTail(M, n, (Shown(ps[0]), ps[0].orig), EntriesOf(rest));
        SequentialAgrees(rest, n + 1, M);
      } else {
        SequentialAgrees(rest, n, M);
      }
    }
  }

  /** No piece is a token. */
  predicate AllLit(ps: seq<Piece>) {
    forall j :: 0 <= j < |ps| ==> ps[j].Lit?
  }

  lemma {:induction false} LitsRender(qs: seq<Piece>)
    requires AllLit(qs)
    ensures Render(qs) == Expand(qs)
    decreases |qs|
  {
    if qs != [] {
      LitsRender(qs[1..]);
    }
  }

  lemma {:induction false} AgreesConcat(a: seq<Piece>, b: seq<Piece>, M: seq<Entry>)
    requires Agrees(a, M) && Agrees(b, M)
    ensures Agrees(a + b, M)
  {
  }

  lemma {:induction false} AgreesSlice(ps: seq<Piece>, i: nat, j: nat, M: seq<Entry>)
    requires i <= j <= |ps| && Agrees(ps, M)
    ensures Agrees(ps[i..j], M)
  {
    assert forall p :: p in ps[i..j] ==> p in ps;
  }
}
