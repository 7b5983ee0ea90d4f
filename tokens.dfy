/** The tokens that stand in for masked text, `__PH<n>__` for a placeholder and `__MT<n>__` for a
    protected term, and the markers that an original text must not contain for the masking to be
    undone exactly. */
module Tokens {
  import opened Text

  datatype Kind = PH | MT

  function Tag(k: Kind): string {
    match k
    case PH => "PH"
    case MT => "MT"
  }

  /** The token `__PH<n>__` or `__MT<n>__`, with `n` in decimal. */
  function TokenString(k: Kind, n: nat): string {
    "__" + Tag(k) + Decimal(n) + "__"
  }

  /** One entry of the mapping: a token and the original text it stands for. */
  type Entry = (string, string)

  /** The character layout of a token: two underscores, the tag, the digits of the number and two
      underscores; all of them are word characters. */
  lemma {:induction false} TokenShape(k: Kind, n: nat)
    ensures var t, d := TokenString(k, n), |Decimal(n)|;
      && |t| == d + 6
      && t[0] == '_' && t[1] == '_' && t[2..4] == Tag(k)
      && (forall j :: 4 <= j < 4 + d ==> IsDigit(t[j]))
      && t[4 + d] == '_' && t[5 + d] == '_'
      && t[4..4 + d] == Decimal(n)
      && (forall j :: 0 <= j < |t| ==> IsWordChar(t[j]))
  {
    var t, dn := TokenString(k, n), Decimal(n);
    DecimalSpec(n);
    assert forall j :: 4 <= j < 4 + |dn| ==> t[j] == dn[j - 4];
    assert t[2] == Tag(k)[0] && t[3] == Tag(k)[1];
  }

  /** Different kinds or numbers give different tokens. */
  lemma {:induction false} TokenInjective(k: Kind, n: nat, k': Kind, n': nat)
    ensures TokenString(k, n) == TokenString(k', n') <==> k == k' && n == n'
  {
    var t, t' := TokenString(k, n), TokenString(k', n');
    if t == t' {
      TokenShape(k, n);
      TokenShape(k', n');
      assert Tag(k) == t[2..4] == Tag(k');
      assert Decimal(n) == t[4..|t| - 2] == Decimal(n');
      DecimalInjective(n, n');
    }
  }

  // ---------------------------------------------------------------------------------------------
  // Markers: the part of a token that no original text may contain

  /** `PH` or `MT` followed by a digit starts at `q`. */
  predicate HasMarkerAt(w: string, q: nat) {
    && q + 3 <= |w|
    && ((w[q] == 'P' && w[q + 1] == 'H') || (w[q] == 'M' && w[q + 1] == 'T'))
    && IsDigit(w[q + 2])
  }

  predicate NoMarker(w: string) {
    forall q: nat | q < |w| :: !HasMarkerAt(w, q)
  }

  lemma {:induction false} MarkerShift(a: string, b: string)
    ensures forall q: nat :: HasMarkerAt(a + b, |a| + q) <==> HasMarkerAt(b, q)
    ensures forall q: nat :: HasMarkerAt(a, q) ==> HasMarkerAt(a + b, q)
  {
    forall q: nat ensures HasMarkerAt(a + b, |a| + q) <==> HasMarkerAt(b, q) {
      if |a| + q + 3 <= |a + b| {
        assert (a + b)[|a| + q] == b[q] && (a + b)[|a| + q + 1] == b[q + 1];
        assert (a + b)[|a| + q + 2] == b[q + 2];
      }
    }
  }

  lemma {:induction false} NoMarkerSplit(a: string, b: string)
    requires NoMarker(a + b)
    ensures NoMarker(a) && NoMarker(b)
  {
    MarkerShift(a, b);
    forall q: nat | q < |b| ensures !HasMarkerAt(b, q) {
      assert !HasMarkerAt(a + b, |a| + q);
    }
  }

  /** Every occurrence of a token carries a marker two characters after its start. */
  lemma {:induction false} TokenOccurrenceMarker(w: string, k: Kind, n: nat, p: nat)
    ensures OccursAt(w, TokenString(k, n), p) ==> HasMarkerAt(w, p + 2)
  {
    var t := TokenString(k, n);
    if OccursAt(w, t, p) {
      TokenShape(k, n);
      assert w[p + 2] == t[2] && w[p + 3] == t[3] && w[p + 4] == t[4];
    }
  }
}
