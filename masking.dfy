/** `mask_text` and `unmask_text`: before a string is sent for translation, its placeholders and the
    protected game terms are swapped for opaque tokens `__PH<n>__` and `__MT<n>__`, and a mapping from
    token to original text is recorded so that the translation can be restored afterwards.

    The masked text is described through a list of pieces: every character of the original that stays
    as it is, and every span that a token replaces. The main result, `RoundTrip`, is that unmasking
    the masked text with the recorded mapping gives the original text back. */
module Masking {
  import opened Text
  import opened Terms
  import opened Tokens
  import opened Pieces
  import opened Scan

  /** `mask_text(text, mapping)` for a mapping holding `n` entries: the masked text, and the entries
      the two passes record, in order. */
  function Mask(text: string, n: nat): (string, seq<Entry>) {
    MaskWith(text, n, LowerTerms)
  }

  /** The two passes with the term pass matching the words of `vocab`. */
  function MaskWith(text: string, n: nat, vocab: set<string>): (string, seq<Entry>) {
    var ps1 := PlaceholderScan(text, n);
    var e1 := EntriesOf(ps1);
    var ps2 := TermScan(Render(ps1), n + |e1|, vocab);
    (Render(ps2), e1 + EntriesOf(ps2))
  }

  /** The recorded entries: first the placeholders, as tokens `__PH<n>__`, `__PH<n+1>__`, …, then the
      terms, numbered on from there as `__MT` tokens; each stands for the text it replaced. */
  lemma {:induction false} MaskEntries(text: string, n: nat, vocab: set<string>)
    ensures |EntriesOf(PlaceholderScan(text, n))| <= |MaskWith(text, n, vocab).1|
    ensures PlaceholderEntriesFrom(MaskWith(text, n, vocab).1[..|EntriesOf(PlaceholderScan(text, n))|], n)
    ensures TermEntriesFrom(MaskWith(text, n, vocab).1[|EntriesOf(PlaceholderScan(text, n))|..],
      n + |EntriesOf(PlaceholderScan(text, n))|, vocab)
  {
    var ps1 := PlaceholderScan(text, n);
    var e1 := EntriesOf(ps1);
    var w, m := Render(ps1), n + |e1|;
    var e2 := EntriesOf(TermScan(w, m, vocab));
    var es := MaskWith(text, n, vocab).1;
    assert es == e1 + e2;
    PlaceholderEntries(text, n);
    TermEntries(w, m, vocab);
    EntriesSplit(es, e1, e2, n, vocab);
  }

  lemma {:induction false} EntriesSplit(es: seq<Entry>, e1: seq<Entry>, e2: seq<Entry>, n: nat, vocab: set<string>)
    requires es == e1 + e2 && PlaceholderEntriesFrom(e1, n) && TermEntriesFrom(e2, n + |e1|, vocab)
    ensures |e1| <= |es| && PlaceholderEntriesFrom(es[..|e1|], n) && TermEntriesFrom(es[|e1|..], n + |e1|, vocab)
  {
    ConcatParts(e1, e2);
  }

  /** Placeholder entries followed by term entries numbered on from them carry their positions. */
  lemma {:induction false} JoinEntries(es: seq<Entry>, n: nat, a: nat, vocab: set<string>)
    requires a <= |es| && PlaceholderEntriesFrom(es[..a], n) && TermEntriesFrom(es[a..], n + a, vocab)
    ensures NumberedKeys(es, n)
  {
    forall j | 0 <= j < |es|
      ensures es[j].0 == TokenString(PH, n + j) || es[j].0 == TokenString(MT, n + j)
    {
      if j < a {
        assert es[..a][j] == es[j];
      } else {
        assert es[a..][j - a] == es[j];
        assert n + a + (j - a) == n + j;
      }
    }
  }

  /** Every entry's token carries its own position, offset by `n`. */
  predicate NumberedKeys(es: seq<Entry>, n: nat) {
    forall j :: 0 <= j < |es| ==> es[j].0 == TokenString(PH, n + j) || es[j].0 == TokenString(MT, n + j)
  }

  lemma {:induction false} NumberedKeysDistinct(es: seq<Entry>, n: nat)
    requires NumberedKeys(es, n)
    ensures forall i, j :: 0 <= i < j < |es| ==> es[i].0 != es[j].0
  {
    forall i, j | 0 <= i < j < |es| ensures es[i].0 != es[j].0 {
      TokenInjective(PH, n + i, PH, n + j);
      TokenInjective(PH, n + i, MT, n + j);
      TokenInjective(MT, n + i, PH, n + j);
      TokenInjective(MT, n + i, MT, n + j);
    }
  }

  /** Different entries of one call have different tokens. */
  lemma {:induction false} MaskKeysDistinct(text: string, n: nat, vocab: set<string>)
    ensures var es := MaskWith(text, n, vocab).1;
      forall i, j :: 0 <= i < j < |es| ==> es[i].0 != es[j].0
  {
    var es := MaskWith(text, n, vocab).1;
    MaskEntries(text, n, vocab);
    JoinEntries(es, n, |EntriesOf(PlaceholderScan(text, n))|, vocab);
    NumberedKeysDistinct(es, n);
  }

  // ---------------------------------------------------------------------------------------------
  // unmask_text

  /** `unmask_text(text, mapping)`: every token replaced, in the mapping's order, by its original. */
  function Unmask(text: string, mapping: seq<Entry>): string
    decreases |mapping|
  {
    if mapping == [] then text
    else Unmask(ReplaceAll(text, mapping[0].0, mapping[0].1), mapping[1..])
  }

  /** The piece while `unmask_text` has dealt with the entries below `i`. */
  function Restored(p: Piece, i: nat): string {
    match p
    case Lit(c) => [c]
    case Tok(k, n, o) => if n < i then o else TokenString(k, n)
  }

  function Partial(ps: seq<Piece>, i: nat): string
    decreases |ps|
  {
    if ps == [] then [] else Restored(ps[0], i) + Partial(ps[1..], i)
  }

  lemma {:induction false} PartialNone(ps: seq<Piece>)
    ensures Partial(ps, 0) == Render(ps)
    decreases |ps|
  {
    if ps != [] {
      PartialNone(ps[1..]);
    }
  }

  lemma {:induction false} PartialAll(ps: seq<Piece>, i: nat)
    requires forall p :: p in ps && p.Tok? ==> p.n < i
    ensures Partial(ps, i) == Expand(ps)
    decreases |ps|
  {
    if ps != [] {
      assert forall p :: p in ps[1..] ==> p in ps;
      PartialAll(ps[1..], i);
    }
  }

  /** Whatever was restored so far, no marker starts before the first token still in place. */
  lemma {:induction false} NoEarlyMarker(acc: string, ps: seq<Piece>, i: nat)
    requires NoMarker(acc + Expand(ps))
    ensures forall q: nat :: q < |acc| + 2 ==> !HasMarkerAt(acc + Partial(ps, i), q)
    decreases |ps|, 1
  {
    if ps == [] {
      assert acc + Partial(ps, i) == acc + Expand(ps) == acc;
    } else {
      if ps[0].Lit? || ps[0].n < i {
        NoEarlyMarkerRestored(acc, ps, i);
      } else {
        NoEarlyMarkerAtToken(acc, ps, i);
      }
    }
  }

  /** The case of `NoEarlyMarker` where the first piece already shows its original text. */
  lemma {:induction false} NoEarlyMarkerRestored(acc: string, ps: seq<Piece>, i: nat)
    requires NoMarker(acc + Expand(ps))
    requires ps != [] && (ps[0].Lit? || ps[0].n < i)
    ensures forall q: nat :: q < |acc| + 2 ==> !HasMarkerAt(acc + Partial(ps, i), q)
    decreases |ps|, 0
  {
    var h := Original(ps[0]);
    assert Partial(ps, i) == h + Partial(ps[1..], i);
    assert Expand(ps) == h + Expand(ps[1..]);
    AppendAssoc(acc, h, Partial(ps[1..], i));
    AppendAssoc(acc, h, Expand(ps[1..]));
    NoEarlyMarker(acc + h, ps[1..], i);
  }

  /** The case of `NoEarlyMarker` where the first piece is a token not yet restored. */
  lemma {:induction false} NoEarlyMarkerAtToken(acc: string, ps: seq<Piece>, i: nat)
    requires NoMarker(acc + Expand(ps))
    requires ps != [] && ps[0].Tok? && ps[0].n >= i
    ensures forall q: nat :: q < |acc| + 2 ==> !HasMarkerAt(acc + Partial(ps, i), q)
  {
    var p := ps[0];
    var t := TokenString(p.kind, p.n);
    var w := acc + Partial(ps, i);
    assert w == acc + (t + Partial(ps[1..], i));
    TokenShape(p.kind, p.n);
    NoMarkerSplit(acc, Expand(ps));
    MarkerShift(acc, t + Partial(ps[1..], i));
    forall q: nat | q < |acc| + 2 ensures !HasMarkerAt(w, q) {
      if q + 3 <= |acc| {
        assert !HasMarkerAt(acc, q);
        assert w[q] == acc[q] && w[q + 1] == acc[q + 1] && w[q + 2] == acc[q + 2];
      } else if q >= |acc| {
        assert w[q] == t[q - |acc|] == '_';
      } else if q + 1 == |acc| {
        assert w[q + 1] == t[0];
      } else {
        assert w[q + 2] == t[0];
      }
    }
  }

  /** Replacing a token in front of a text that starts with no marker replaces the front token exactly
      when it is the token sought. */
  lemma {:induction false} ReplaceAfterToken(k: Kind, n: nat, rest: string, k': Kind, i: nat, r: string)
    requires !HasMarkerAt(rest, 0) && !HasMarkerAt(rest, 1)
    ensures ReplaceAll(TokenString(k, n) + rest, TokenString(k', i), r)
         == (if k == k' && n == i then r else TokenString(k, n)) + ReplaceAll(rest, TokenString(k', i), r)
  {
    var T, t := TokenString(k, n), TokenString(k', i);
    TokenShape(k', i);
    if k == k' && n == i {
      ReplaceAllHit(t, rest, r);
    } else {
      TokenShape(k, n);
      forall p: nat | p < |T| ensures !OccursAt(T + rest, t, p) {
        OtherTokenNotAt(k, n, rest, k', i, p);
      }
      ReplaceAllSkip(T, rest, t, r);
    }
  }

  /** A different token occurs nowhere inside a token followed by a text that starts with no marker. */
  lemma {:induction false} OtherTokenNotAt(k: Kind, n: nat, rest: string, k': Kind, i: nat, p: nat)
    requires !HasMarkerAt(rest, 0) && !HasMarkerAt(rest, 1)
    requires k != k' || n != i
    requires p < |TokenString(k, n)|
    ensures !OccursAt(TokenString(k, n) + rest, TokenString(k', i), p)
  {
    var T, t := TokenString(k, n), TokenString(k', i);
    var w := T + rest;
    TokenShape(k', i);
    TokenShape(k, n);
    if p == 0 {
      OtherTokenNotAtStart(k, n, rest, k', i);
    } else {
      MarkerShift(T, rest);
      TokenOccurrenceMarker(w, k', i, p);
      if p == 1 && 1 + |t| <= |w| {
        assert w[2] == T[2] != '_';
        assert w[1..1 + |t|][1] == w[2];
      } else if 2 <= p < |T| - 2 && p + |t| <= |w| {
        assert w[p] == T[p] != '_';
        assert w[p..p + |t|][0] == w[p];
      } else if p == |T| - 2 {
        assert !HasMarkerAt(w, |T| + 0);
      } else if p == |T| - 1 {
        assert !HasMarkerAt(w, |T| + 1);
      }
    }
  }

  /** A different token does not start where a token starts. */
  lemma {:induction false} OtherTokenNotAtStart(k: Kind, n: nat, rest: string, k': Kind, i: nat)
    requires k != k' || n != i
    ensures !OccursAt(TokenString(k, n) + rest, TokenString(k', i), 0)
  {
    var T, t := TokenString(k, n), TokenString(k', i);
    var w := T + rest;
    TokenShape(k', i);
    TokenShape(k, n);
    TokenInjective(k, n, k', i);
    if |t| <= |w| {
      if |t| == |T| {
        assert w[..|t|] == T;
      } else if |t| < |T| {
        assert w[|t| - 2] == T[|t| - 2];
        assert IsDigit(T[|t| - 2]);
      } else {
        assert w[|T| - 2] == T[|T| - 2] == '_';
        assert IsDigit(t[|T| - 2]);
        assert w[..|t|][|T| - 2] != t[|T| - 2];
      }
    }
  }

  /** One step of `unmask_text`: with the entries below `i` dealt with, replacing the token numbered
      `i` restores exactly the pieces numbered `i`. */
  lemma {:induction false} ReplaceStep(ps: seq<Piece>, i: nat, k: Kind, o: string)
    requires NoMarker(Expand(ps))
    requires forall p :: p in ps && p.Tok? && p.n == i ==> p.kind == k && p.orig == o
    ensures ReplaceAll(Partial(ps, i), TokenString(k, i), o) == Partial(ps, i + 1)
    decreases |ps|
  {
    var t := TokenString(k, i);
    TokenShape(k, i);
    if ps == [] {
      forall p: nat ensures !OccursAt([], t, p) { }
      ReplaceAllAbsent([], t, o);
    } else {
      var p, rest := ps[0], ps[1..];
      assert forall x :: x in rest ==> x in ps;
      NoMarkerSplit(Original(p), Expand(rest));
      ReplaceStep(rest, i, k, o);
      var P := Partial(rest, i);
      if p.Lit? || p.n < i {
        var h := Original(p);
        NoEarlyMarker(h, rest, i);
        forall q: nat | q < |h| ensures !OccursAt(h + P, t, q) {
          TokenOccurrenceMarker(h + P, k, i, q);
        }
        ReplaceAllSkip(h, P, t, o);
      } else {
        assert [] + Expand(rest) == Expand(rest);
        NoEarlyMarker([], rest, i);
        assert [] + P == P;
        ReplaceAfterToken(p.kind, p.n, P, k, i, o);
      }
    }
  }

  /** Dealing with the remaining entries from `i` on restores the whole original. */
  lemma {:induction false} UnmaskPartial(ps: seq<Piece>, M: seq<Entry>, i: nat)
    requires NoMarker(Expand(ps)) && Agrees(ps, M) && NumberedKeys(M, 0) && i <= |M|
    ensures Unmask(Partial(ps, i), M[i..]) == Expand(ps)
    decreases |M| - i
  {
    if i == |M| {
      PartialAll(ps, i);
    } else {
      var (t, o) := M[i];
      var k := if t == TokenString(PH, i) then PH else MT;
      forall p | p in ps && p.Tok? && p.n == i ensures p.kind == k && p.orig == o {
        TokenInjective(p.kind, i, k, i);
      }
      ReplaceStep(ps, i, k, o);
      assert M[i..][1..] == M[i + 1..];
      UnmaskPartial(ps, M, i + 1);
    }
  }

  /** The masking round trip: a text in which no `PH` or `MT` is followed by a digit is given back
      exactly by unmasking its masked form with the mapping that masking filled in from empty. */
  lemma {:induction false} RoundTrip(s: string)
    requires NoMarker(s)
    ensures Unmask(Mask(s, 0).0, Mask(s, 0).1) == s
  {
    LowerTermsAreLetters();
    RoundTripWith(s, LowerTerms);
  }

  /** The round trip for any vocabulary of letter words. */
  lemma {:induction false} RoundTripWith(s: string, vocab: set<string>)
    requires NoMarker(s) && LetterWords(vocab)
    ensures Unmask(MaskWith(s, 0, vocab).0, MaskWith(s, 0, vocab).1) == s
  {
    var ps1 := PlaceholderScan(s, 0);
    var e1 := EntriesOf(ps1);
    var a := |e1|;
    var w := Render(ps1);
    var ps2 := TermScan(w, a, vocab);
    var e2 := EntriesOf(ps2);
    var M := e1 + e2;
    var joint := TermJoint(ps1, a, vocab);
    assert MaskWith(s, 0, vocab) == (Render(ps2), M);
    PlaceholderScanFacts(s, 0);
    TermJointRender(ps1, a, vocab);
    JointAgrees(ps1, vocab, M);
    MaskNumbered(s, vocab, M);
    PartialNone(joint);
    UnmaskPartial(joint, M, 0);
    assert M[0..] == M;
  }

  /** The entries of both passes agree with the joint pieces. */
  lemma {:induction false} JointAgrees(ps1: seq<Piece>, vocab: set<string>, M: seq<Entry>)
    requires LetterWords(vocab) && Sequential(ps1, 0)
    requires M == EntriesOf(ps1) + EntriesOf(TermScan(Render(ps1), |EntriesOf(ps1)|, vocab))
    ensures Agrees(TermJoint(ps1, |EntriesOf(ps1)|, vocab), M)
  {
    var e1 := EntriesOf(ps1);
    var a := |e1|;
    var w := Render(ps1);
    var e2 := EntriesOf(TermScan(w, a, vocab));
    ConcatParts(e1, e2);
    SequentialAgrees(ps1, 0, M);
    TermJointAgrees(ps1, a, M, vocab);
  }

  /** The entries of masking from an empty mapping carry their own positions. */
  lemma {:induction false} MaskNumbered(s: string, vocab: set<string>, M: seq<Entry>)
    requires M == MaskWith(s, 0, vocab).1
    ensures NumberedKeys(M, 0)
  {
    MaskEntries(s, 0, vocab);
    JoinEntries(M, 0, |EntriesOf(PlaceholderScan(s, 0))|, vocab);
  }

  // ---------------------------------------------------------------------------------------------
  // The mapping dictionary

  predicate HasKey(es: seq<Entry>, key: string) {
    exists j :: 0 <= j < |es| && es[j].0 == key
  }

  predicate DistinctKeys(es: seq<Entry>) {
    forall i, j :: 0 <= i < j < |es| ==> es[i].0 != es[j].0
  }

  /** `mapping[key] = value` on a Python dict. */
  function Put(es: seq<Entry>, key: string, value: string): seq<Entry>
    decreases |es|
  {
    if es == [] then [(key, value)]
    else if es[0].0 == key then [(key, value)] + es[1..]
    else [es[0]] + Put(es[1..], key, value)
  }

  /** A key not yet present is added at the end; a present key keeps its place and takes the new
      value, every other entry staying as it was. */
  lemma {:induction false} PutSpec(es: seq<Entry>, key: string, value: string)
    ensures !HasKey(es, key) ==> Put(es, key, value) == es + [(key, value)]
    ensures HasKey(es, key) && DistinctKeys(es) ==>
      |Put(es, key, value)| == |es| &&
      forall j :: 0 <= j < |es| ==> Put(es, key, value)[j] == (if es[j].0 == key then (key, value) else es[j])
    decreases |es|
  {
    if es != [] && es[0].0 != key {
      var tail := es[1..];
      PutSpec(tail, key, value);
      assert HasKey(tail, key) <==> HasKey(es, key) by {
        if HasKey(tail, key) {
          var j :| 0 <= j < |tail| && tail[j].0 == key;
          assert es[j + 1].0 == key;
        }
        if HasKey(es, key) {
          var j :| 0 <= j < |es| && es[j].0 == key;
          assert tail[j - 1].0 == key;
        }
      }
      if HasKey(es, key) && DistinctKeys(es) {
        assert DistinctKeys(tail) by {
          forall a, b | 0 <= a < b < |tail| ensures tail[a].0 != tail[b].0 {
            assert tail[a] == es[a + 1] && tail[b] == es[b + 1];
          }
        }
      }
    } else if es != [] && HasKey(es, key) && DistinctKeys(es) {
      forall j | 0 < j < |es| ensures es[j].0 != key {
        assert es[0].0 != es[j].0;
      }
    }
  }

  /** The entries `added` put into the dict one after the other. */
  function PutAll(es: seq<Entry>, added: seq<Entry>): seq<Entry>
    decreases |added|
  {
    if added == [] then es else PutAll(Put(es, added[0].0, added[0].1), added[1..])
  }

  /** Putting entries whose keys are new and different from each other appends them. */
  lemma {:induction false} PutAllFresh(es: seq<Entry>, added: seq<Entry>)
    requires DistinctKeys(es + added)
    ensures PutAll(es, added) == es + added
    decreases |added|
  {
    if added != [] {
      var e := added[0];
      assert !HasKey(es, e.0) by {
        forall j | 0 <= j < |es| ensures es[j].0 != e.0 {
          assert (es + added)[j] == es[j] && (es + added)[|es|] == e;
        }
      }
      PutSpec(es, e.0, e.1);
      assert (es + [e]) + added[1..] == es + added;
      PutAllFresh(es + [e], added[1..]);
    }
  }

  /** No key of `es` is a token numbered `n` or more, so the tokens of a call that numbers from `n`
      are all new to it. */
  ghost predicate NoTokenFrom(es: seq<Entry>, n: nat) {
    forall j, k: Kind, m: nat :: 0 <= j < |es| && n <= m ==> es[j].0 != TokenString(k, m)
  }

  /** Masking into a dict that already holds entries keeps every one of them, in its place and with
      its value, and appends the new entries after them, whenever no existing key is one of the
      tokens the call may create. (A key `__PH7__` already present in a dict of five entries, say,
      would be overwritten.) */
  lemma {:induction false} MaskKeepsEntries(text: string, es: seq<Entry>, vocab: set<string>)
    requires DistinctKeys(es) && NoTokenFrom(es, |es|)
    ensures PutAll(es, MaskWith(text, |es|, vocab).1) == es + MaskWith(text, |es|, vocab).1
  {
    var n := |es|;
    var added := MaskWith(text, n, vocab).1;
    MaskEntries(text, n, vocab);
    JoinEntries(added, n, |EntriesOf(PlaceholderScan(text, n))|, vocab);
    MaskKeysDistinct(text, n, vocab);
    var all := es + added;
    forall a, b | 0 <= a < b < |all| ensures all[a].0 != all[b].0 {
      if b < n {
        assert all[a] == es[a] && all[b] == es[b];
      } else if a >= n {
        assert all[a] == added[a - n] && all[b] == added[b - n];
      } else {
        assert all[a] == es[a] && all[b] == added[b - n];
        assert added[b - n].0 == TokenString(PH, n + (b - n)) || added[b - n].0 == TokenString(MT, n + (b - n));
      }
    }
    PutAllFresh(es, added);
  }

  /** The `mapping` dictionary that `mask_text` fills in and `unmask_text` reads. */
  class TokenMap {
    var entries: seq<Entry>

    constructor ()
      ensures entries == []
    {
      entries := [];
    }
  }

  /** `mask_text(text, mapping)`: both passes, with the counter starting at the mapping's size. */
  method MaskText(text: string, mapping: TokenMap) returns (masked: string)
    modifies mapping
    ensures masked == Mask(text, old(|mapping.entries|)).0
    ensures mapping.entries == PutAll(old(mapping.entries), Mask(text, old(|mapping.entries|)).1)
    ensures DistinctKeys(old(mapping.entries)) && NoTokenFrom(old(mapping.entries), old(|mapping.entries|)) ==>
      mapping.entries == old(mapping.entries) + Mask(text, old(|mapping.entries|)).1
  {
    masked := MaskTextWith(text, mapping, LowerTerms);
  }

  /** `mask_text` with the term pass matching the words of `vocab`. */
  method MaskTextWith(text: string, mapping: TokenMap, vocab: set<string>) returns (masked: string)
    modifies mapping
    ensures masked == MaskWith(text, old(|mapping.entries|), vocab).0
    ensures mapping.entries == PutAll(old(mapping.entries), MaskWith(text, old(|mapping.entries|), vocab).1)
    ensures DistinctKeys(old(mapping.entries)) && NoTokenFrom(old(mapping.entries), old(|mapping.entries|)) ==>
      mapping.entries == old(mapping.entries) + MaskWith(text, old(|mapping.entries|), vocab).1
  {
    ghost var n, before := |mapping.entries|, mapping.entries;
    var tokenIndex := |mapping.entries|;
    var ps1 := PlaceholderScan(text, tokenIndex);
    var e1 := EntriesOf(ps1);
    masked := Render(ps1);
    mapping.entries := PutAll(mapping.entries, e1);
    tokenIndex := tokenIndex + |e1|;
    var ps2 := TermScan(masked, tokenIndex, vocab);
    var e2 := EntriesOf(ps2);
    masked := Render(ps2);
    mapping.entries := PutAll(mapping.entries, e2);
    PutAllConcat(before, e1, e2);
    if DistinctKeys(before) && NoTokenFrom(before, n) {
      MaskKeepsEntries(text, before, vocab);
    }
  }

  lemma {:induction false} PutAllConcat(es: seq<Entry>, a: seq<Entry>, b: seq<Entry>)
    ensures PutAll(es, a + b) == PutAll(PutAll(es, a), b)
    decreases |a|
  {
    if a == [] {
      assert a + b == b;
    } else {
      assert (a + b)[0] == a[0] && (a + b)[1..] == a[1..] + b;
      PutAllConcat(Put(es, a[0].0, a[0].1), a[1..], b);
    }
  }

  /** Masking into a fresh mapping records exactly the entries of `MaskWith`. */
  lemma {:induction false} MaskFresh(text: string, vocab: set<string>)
    ensures PutAll([], MaskWith(text, 0, vocab).1) == MaskWith(text, 0, vocab).1
  {
    var es := MaskWith(text, 0, vocab).1;
    MaskKeysDistinct(text, 0, vocab);
    assert [] + es == es;
    PutAllFresh([], es);
  }

  /** `unmask_text(text, mapping)`. */
  method UnmaskText(text: string, mapping: TokenMap) returns (r: string)
    ensures r == Unmask(text, mapping.entries)
  {
    r := text;
    var i := 0;
    while i < |mapping.entries|
      invariant 0 <= i <= |mapping.entries|
      invariant Unmask(r, mapping.entries[i..]) == Unmask(text, mapping.entries)
    {
      var (token, original) := mapping.entries[i];
      assert mapping.entries[i..][1..] == mapping.entries[i + 1..];
      r := ReplaceAll(r, token, original);
      i := i + 1;
    }
  }

  // ---------------------------------------------------------------------------------------------
  // Texts made only of tokens

  /** The test of `translate_string` for a masked text that is nothing but tokens: one or more
      `__PH<digits>__` or `__MT<digits>__`, back to back, filling the whole text. */
  predicate TokensOnly(w: string)
    decreases |w|
  {
    && |w| >= 4 && w[0] == '_' && w[1] == '_' && (w[2..4] == "PH" || w[2..4] == "MT")
    && var j := SkipWhile(w, 4, IsDigit);
       && j > 4 && j + 2 <= |w| && w[j] == '_' && w[j + 1] == '_'
       && (j + 2 == |w| || TokensOnly(w[j + 2..]))
  }

  /** A non-empty sequence of tokens is recognised as nothing but tokens. */
  lemma {:induction false} TokensRenderTokensOnly(ps: seq<Piece>)
    requires ps != [] && forall p :: p in ps ==> p.Tok?
    ensures TokensOnly(Render(ps))
    decreases |ps|
  {
    var p, rest := ps[0], ps[1..];
    var t, R := TokenString(p.kind, p.n), Render(rest);
    var w := t + R;
    assert Render(ps) == w;
    TokenShape(p.kind, p.n);
    var d := |Decimal(p.n)|;
    assert forall j :: 0 <= j < |t| ==> w[j] == t[j];
    SkipWhileExact(w, 4, IsDigit, 4 + d);
    assert w[2..4] == t[2..4];
    assert w[d + 6..] == R;
    if rest != [] {
      assert forall x :: x in rest ==> x in ps;
      TokensRenderTokensOnly(rest);
    }
  }
}
