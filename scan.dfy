/** The two substitution passes of `mask_text`: `PLACEHOLDER_RE` and then `TERMS_PATTERN`, each as a
    function from the text to a list of pieces; and both passes seen together on one list of pieces. */
module Scan {
  import opened Text
  import opened Terms
  import opened Tokens
  import opened Pieces

  // ---------------------------------------------------------------------------------------------
  // First pass: the placeholders of `PLACEHOLDER_RE`

  predicate NotClosingBrace(c: char) { c != '}' }

  /** The class `[^%\s]`. */
  predicate PercentBody(c: char) { c != '%' && !IsSpace(c) }

  /** A whole placeholder: `{…}` with no `}` inside, `%…%` with neither `%` nor whitespace inside,
      or `$` followed by identifier characters; the inside is never empty. */
  predicate IsPlaceholder(x: string) {
    || (|x| >= 3 && x[0] == '{' && x[|x| - 1] == '}' && forall i :: 0 < i < |x| - 1 ==> NotClosingBrace(x[i]))
    || (|x| >= 3 && x[0] == '%' && x[|x| - 1] == '%' && forall i :: 0 < i < |x| - 1 ==> PercentBody(x[i]))
    || (|x| >= 2 && x[0] == '$' && forall i :: 0 < i < |x| ==> IsWordChar(x[i]))
  }

  /** Length of the placeholder that `PLACEHOLDER_RE` matches at the start of `w` (the `$` form
      greedily), or 0 if it matches nothing there. */
  function PlaceholderLen(w: string): (k: nat)
    ensures k <= |w|
  {
    if w == [] then 0
    else if w[0] == '{' then
      var f := SkipWhile(w, 1, NotClosingBrace);
      if 2 <= f < |w| then f + 1 else 0
    else if w[0] == '%' then
      var f := SkipWhile(w, 1, PercentBody);
      if 2 <= f < |w| && w[f] == '%' then f + 1 else 0
    else if w[0] == '$' then
      var f := SkipWhile(w, 1, IsWordChar);
      if f >= 2 then f else 0
    else 0
  }

  /** `PlaceholderLen` finds a placeholder prefix whenever there is one, and that prefix is the
      longest: no other prefix of `w` is a placeholder. */
  lemma {:induction false} PlaceholderLenSpec(w: string)
    ensures PlaceholderLen(w) > 0 ==> IsPlaceholder(w[..PlaceholderLen(w)])
    ensures forall j :: 0 < j <= |w| && IsPlaceholder(w[..j]) ==> j <= PlaceholderLen(w)
  {
    var k := PlaceholderLen(w);
    if w != [] && (w[0] == '{' || w[0] == '%' || w[0] == '$') {
      var keep := if w[0] == '{' then NotClosingBrace else if w[0] == '%' then PercentBody else IsWordChar;
      var f := SkipWhile(w, 1, keep);
      SkipWhileSpec(w, 1, keep);
      forall j | 0 < j <= |w| && IsPlaceholder(w[..j])
        ensures j <= k
      {
        var x := w[..j];
        assert forall i :: 0 <= i < j ==> x[i] == w[i];
        if w[0] == '$' {
          assert j <= f;
        } else {
          assert !keep(w[j - 1]);
          assert f == j - 1;
        }
      }
      if k > 0 {
        assert forall i :: 0 <= i < k ==> w[..k][i] == w[i];
      }
    }
  }

  /** `PLACEHOLDER_RE.sub(repl_ph, s)` with the counter starting at `n`, as a list of pieces: scanning
      left to right, each placeholder becomes the next `__PH` token, every other character is kept. */
  function PlaceholderScan(s: string, n: nat): seq<Piece>
    decreases |s|
  {
    if s == [] then []
    else
      var k := PlaceholderLen(s);
      if k > 0 then [Tok(PH, n, s[..k])] + PlaceholderScan(s[k..], n + 1)
      else [Lit(s[0])] + PlaceholderScan(s[1..], n)
  }

  /** The first pass loses nothing, numbers its tokens in order and replaces only placeholders. */
  lemma {:induction false} PlaceholderScanFacts(s: string, n: nat)
    ensures var ps := PlaceholderScan(s, n);
      Expand(ps) == s && Sequential(ps, n) && AllTok(ps, PH, IsPlaceholder)
  {
    PlaceholderScanExpand(s, n);
    PlaceholderScanSequential(s, n);
    PlaceholderScanTokens(s, n);
  }

  lemma {:induction false} PlaceholderScanExpand(s: string, n: nat)
    ensures Expand(PlaceholderScan(s, n)) == s
    decreases |s|
  {
    if s != [] {
      var k := PlaceholderLen(s);
      var len := if k > 0 then k else 1;
      var m := if k > 0 then n + 1 else n;
      var head := if k > 0 then Tok(PH, n, s[..k]) else Lit(s[0]);
      var rest := PlaceholderScan(s[len..], m);
      assert PlaceholderScan(s, n) == [head] + rest;
      PlaceholderScanExpand(s[len..], m);
      ExpandConcat([head], rest);
      assert Expand([head]) == s[..len];
      SplitAt(s, len);
    }
  }

  lemma {:induction false} PlaceholderScanSequential(s: string, n: nat)
    ensures Sequential(PlaceholderScan(s, n), n)
    decreases |s|
  {
    if s != [] {
      var k := PlaceholderLen(s);
      var ps := PlaceholderScan(s, n);
      if k > 0 {
        PlaceholderScanSequential(s[k..], n + 1);
        assert ps[0] == Tok(PH, n, s[..k]) && ps[1..] == PlaceholderScan(s[k..], n + 1);
      } else {
        PlaceholderScanSequential(s[1..], n);
        assert ps[0] == Lit(s[0]) && ps[1..] == PlaceholderScan(s[1..], n);
      }
    }
  }

  lemma {:induction false} PlaceholderScanTokens(s: string, n: nat)
    ensures AllTok(PlaceholderScan(s, n), PH, IsPlaceholder)
    decreases |s|
  {
    if s != [] {
      var k := PlaceholderLen(s);
      var ps := PlaceholderScan(s, n);
      if k > 0 {
        var rest := PlaceholderScan(s[k..], n + 1);
        PlaceholderScanTokens(s[k..], n + 1);
        PlaceholderLenSpec(s);
        assert ps == [Tok(PH, n, s[..k])] + rest;
        assert forall p :: p in ps ==> p == ps[0] || p in rest;
      } else {
        var rest := PlaceholderScan(s[1..], n);
        PlaceholderScanTokens(s[1..], n);
        assert ps == [Lit(s[0])] + rest;
        assert forall p :: p in ps ==> p == ps[0] || p in rest;
      }
    }
  }

  /** No placeholder starts at position `i` of `s`. */
  predicate NoPlaceholderAt(s: string, i: nat) {
    forall k :: i < k <= |s| ==> !IsPlaceholder(s[i..k])
  }

  /** The first pass masks every placeholder it comes to: each character it keeps stands where no
      placeholder starts. */
  lemma {:induction false} PlaceholderScanComplete(s: string, n: nat)
    ensures var ps := PlaceholderScan(s, n);
      forall j :: 0 <= j < |ps| && ps[j].Lit? ==>
        Offset(ps, j) < |s| && s[Offset(ps, j)] == ps[j].c && NoPlaceholderAt(s, Offset(ps, j))
  {
    var ps := PlaceholderScan(s, n);
    forall j | 0 <= j < |ps| && ps[j].Lit?
      ensures Offset(ps, j) < |s| && s[Offset(ps, j)] == ps[j].c && NoPlaceholderAt(s, Offset(ps, j))
    {
      PlaceholderScanLit(s, n, j);
    }
  }

  /** Piece `j` of the first pass, a kept character, stands where no placeholder starts. */
  lemma {:induction false} PlaceholderScanLit(s: string, n: nat, j: nat)
    requires j < |PlaceholderScan(s, n)| && PlaceholderScan(s, n)[j].Lit?
    ensures var ps := PlaceholderScan(s, n);
      Offset(ps, j) < |s| && s[Offset(ps, j)] == ps[j].c && NoPlaceholderAt(s, Offset(ps, j))
    decreases |s|, 1
  {
    var ps := PlaceholderScan(s, n);
    var k := PlaceholderLen(s);
    var len := if k > 0 then k else 1;
    var m := if k > 0 then n + 1 else n;
    var head := if k > 0 then Tok(PH, n, s[..k]) else Lit(s[0]);
    assert ps == [head] + PlaceholderScan(s[len..], m);
    if j == 0 {
      NoPlaceholderStart(s);
      assert ps[..0] == [];
    } else {
      LitAfterScan(s, len, m, head, ps, j);
    }
  }

  /** `PlaceholderScanLit` for a kept character that follows the piece `head`, which stands for
      `s[..len]`. */
  lemma {:induction false} LitAfterScan(s: string, len: nat, m: nat, head: Piece, ps: seq<Piece>, j: nat)
    requires 0 < len <= |s| && ps == [head] + PlaceholderScan(s[len..], m) && |Original(head)| == len
    requires 0 < j < |ps| && ps[j].Lit?
    ensures Offset(ps, j) < |s| && s[Offset(ps, j)] == ps[j].c && NoPlaceholderAt(s, Offset(ps, j))
    decreases |s|, 0
  {
    var rest := PlaceholderScan(s[len..], m);
    assert ps[j] == rest[j - 1];
    PlaceholderScanLit(s[len..], m, j - 1);
    LitShift(s, len, head, rest, ps, j);
  }

  /** A kept character of `rest` where no placeholder of `s[len..]` starts is one of `[head] + rest`
      where no placeholder of `s` starts. */
  lemma {:induction false} LitShift(s: string, len: nat, head: Piece, rest: seq<Piece>, ps: seq<Piece>, j: nat)
    requires ps == [head] + rest && |Original(head)| == len <= |s| && 0 < j < |ps| && rest[j - 1].Lit?
    requires var o := Offset(rest, j - 1);
      o < |s[len..]| && s[len..][o] == rest[j - 1].c && NoPlaceholderAt(s[len..], o)
    ensures Offset(ps, j) < |s| && s[Offset(ps, j)] == ps[j].c && NoPlaceholderAt(s, Offset(ps, j))
  {
    OffsetConcat([head], rest, j);
    assert Expand([head]) == Original(head) + Expand([]);
    var o := Offset(rest, j - 1);
    assert s[len + o] == s[len..][o];
    NoPlaceholderShift(s, len, o);
  }

  /** Where `PlaceholderLen` finds nothing, no placeholder starts. */
  lemma {:induction false} NoPlaceholderStart(s: string)
    requires PlaceholderLen(s) == 0
    ensures NoPlaceholderAt(s, 0)
  {
    PlaceholderLenSpec(s);
    forall t | 0 < t <= |s| ensures !IsPlaceholder(s[0..t]) {
      assert s[0..t] == s[..t];
    }
  }

  /** A position of `s[len..]` where no placeholder starts is one of `s`. */
  lemma {:induction false} NoPlaceholderShift(s: string, len: nat, o: nat)
    requires len <= |s| && NoPlaceholderAt(s[len..], o)
    ensures NoPlaceholderAt(s, len + o)
  {
    var i := len + o;
    forall t | i < t <= |s| ensures !IsPlaceholder(s[i..t]) {
      assert s[i..t] == s[len..][o..t - len];
    }
  }

  // ---------------------------------------------------------------------------------------------
  // Second pass: TERMS_PATTERN = \b(term|term|…)\b, ignoring case

  /** Length of the run of word characters at the start of `w`. */
  function WordRun(w: string): (k: nat)
    ensures k <= |w|
  {
    SkipWhile(w, 0, IsWordChar)
  }

  lemma {:induction false} WordRunSpec(w: string)
    ensures forall i :: 0 <= i < WordRun(w) ==> IsWordChar(w[i])
    ensures WordRun(w) < |w| ==> !IsWordChar(w[WordRun(w)])
  {
    SkipWhileSpec(w, 0, IsWordChar);
  }

  /** `original.lower() in LOWER_TERMS`, for a vocabulary `vocab` of lower-case forms; `Mask` passes
      `LOWER_TERMS` itself. */
  predicate IsTermWord(word: string, vocab: set<string>) {
    ToLower(word) in vocab
  }

  /** `TERMS_PATTERN.sub(repl_term, w)` with the counter starting at `n`, as a list of pieces. Since
      every term is made of letters and the pattern is enclosed in `\b`, a match is always a whole
      maximal run of word characters that equals a term ignoring case; each such run becomes the next
      `__MT` token and everything else is kept. */
  function TermScan(w: string, n: nat, vocab: set<string>): seq<Piece>
    decreases |w|
  {
    if w == [] then []
    else if !IsWordChar(w[0]) then [Lit(w[0])] + TermScan(w[1..], n, vocab)
    else
      var k := WordRun(w);
      if IsTermWord(w[..k], vocab) then [Tok(MT, n, w[..k])] + TermScan(w[k..], n + 1, vocab)
      else Lits(w[..k]) + TermScan(w[k..], n, vocab)
  }

  /** The second pass loses nothing, numbers its tokens in order and replaces only terms. */
  lemma {:induction false} TermScanFacts(w: string, n: nat, vocab: set<string>)
    ensures var ps := TermScan(w, n, vocab);
      Expand(ps) == w && Sequential(ps, n) && AllTok(ps, MT, x => IsTermWord(x, vocab))
    decreases |w|
  {
    if w != [] {
      var ps := TermScan(w, n, vocab);
      if !IsWordChar(w[0]) {
        TermScanFacts(w[1..], n, vocab);
        var rest := TermScan(w[1..], n, vocab);
        assert ps[1..] == rest;
        assert forall p :: p in ps ==> p == ps[0] || p in rest;
        assert w == [w[0]] + w[1..];
      } else {
        var k := WordRun(w);
        SplitAt(w, k);
        if IsTermWord(w[..k], vocab) {
          TermScanFacts(w[k..], n + 1, vocab);
          var rest := TermScan(w[k..], n + 1, vocab);
          assert ps[1..] == rest;
          assert forall p :: p in ps ==> p == ps[0] || p in rest;
        } else {
          TermScanFacts(w[k..], n, vocab);
          var lits, rest := Lits(w[..k]), TermScan(w[k..], n, vocab);
          LitsSpec(w[..k]);
          PiecesConcat(lits, rest);
          assert forall p :: p in ps ==> p in lits || p in rest;
          LitsSequential(lits, rest, n);
        }
      }
    }
  }

  lemma {:induction false} LitsSequential(lits: seq<Piece>, rest: seq<Piece>, n: nat)
    requires forall p :: p in lits ==> p.Lit?
    requires Sequential(rest, n)
    ensures Sequential(lits + rest, n)
    decreases |lits|
  {
    if lits == [] {
      assert lits + rest == rest;
    } else {
      assert (lits + rest)[1..] == lits[1..] + rest;
      assert lits[0] in lits;
      LitsSequential(lits[1..], rest, n);
    }
  }

  /** `w[i..k]` is a whole word: a run of word characters with no word character just before or
      just after it, which is what `\b…\b` around a run of letters matches. */
  predicate WordAt(w: string, i: nat, k: nat) {
    && i < k <= |w|
    && WordChars(w, i, k)
    && (i == 0 || !IsWordChar(w[i - 1]))
    && (k == |w| || !IsWordChar(w[k]))
  }

  /** Piece `j` of `ps` is a token standing for `word`, which starts at offset `i` of the text. */
  predicate TokenAt(ps: seq<Piece>, j: int, i: nat, word: string) {
    0 <= j < |ps| && ps[j].Tok? && Offset(ps, j) == i && ps[j].orig == word
  }

  /** Some token of `ps` stands for `word` at offset `i` of the text. */
  predicate Masked(ps: seq<Piece>, i: nat, word: string) {
    exists j :: 0 <= j < |ps| && TokenAt(ps, j, i, word)
  }

  /** Every character of `w[i..k]` is a word character. */
  predicate WordChars(w: string, i: nat, k: nat)
    requires k <= |w|
  {
    forall t :: i <= t < k ==> IsWordChar(w[t])
  }

  /** Token `j` of `ps` stands for a whole word of `w`, at its place. */
  predicate TokenIsWord(w: string, ps: seq<Piece>, j: nat)
    requires j < |ps| && ps[j].Tok?
  {
    var i, k := Offset(ps, j), Offset(ps, j) + |ps[j].orig|;
    WordAt(w, i, k) && w[i..k] == ps[j].orig
  }

  /** Every token of the second pass stands for a whole word of the text, at its place. */
  lemma {:induction false} TermScanTokens(w: string, n: nat, vocab: set<string>)
    ensures var ps := TermScan(w, n, vocab);
      forall j :: 0 <= j < |ps| && ps[j].Tok? ==> TokenIsWord(w, ps, j)
  {
    var ps := TermScan(w, n, vocab);
    forall j | 0 <= j < |ps| && ps[j].Tok? ensures TokenIsWord(w, ps, j) {
      TermScanTokWord(w, n, vocab, j);
    }
  }

  /** Token `j` of the second pass stands for a whole word of the text, at its place. */
  lemma {:induction false} TermScanTokWord(w: string, n: nat, vocab: set<string>, j: nat)
    requires j < |TermScan(w, n, vocab)| && TermScan(w, n, vocab)[j].Tok?
    ensures TokenIsWord(w, TermScan(w, n, vocab), j)
  {
    TermScanTok(w, n, vocab, TermScan(w, n, vocab), j);
    TermScanTokText(w, n, vocab, j);
  }

  /** The second pass misses no term: every whole word of the text whose lower case is a term is
      one of its tokens, at its place. */
  lemma {:induction false} TermScanComplete(w: string, n: nat, vocab: set<string>)
    ensures forall i: nat, k: nat :: WordAt(w, i, k) && IsTermWord(w[i..k], vocab) ==>
      Masked(TermScan(w, n, vocab), i, w[i..k])
  {
    forall i: nat, k: nat | WordAt(w, i, k) && IsTermWord(w[i..k], vocab)
      ensures Masked(TermScan(w, n, vocab), i, w[i..k])
    {
      TermScanFinds(w, n, vocab, TermScan(w, n, vocab), i, k);
    }
  }

  /** Token `j` of the second pass stands where its original text is. */
  lemma {:induction false} TermScanTokText(w: string, n: nat, vocab: set<string>, j: nat)
    requires j < |TermScan(w, n, vocab)| && TermScan(w, n, vocab)[j].Tok?
    ensures var ps := TermScan(w, n, vocab);
      Offset(ps, j) + |ps[j].orig| <= |w| && w[Offset(ps, j)..Offset(ps, j) + |ps[j].orig|] == ps[j].orig
  {
    var ps := TermScan(w, n, vocab);
    TermScanFacts(w, n, vocab);
    OffsetWithin(ps, j);
  }

  /** A whole word of `w[len..]` is a whole word of `w`, when it does not start right after a word
      character. */
  lemma {:induction false} WordAtShift(w: string, len: nat, i: nat, k: nat)
    requires 0 < len <= |w| && WordAt(w[len..], i, k) && (i > 0 || !IsWordChar(w[len - 1]))
    ensures WordAt(w, len + i, len + k)
  {
    forall t | len + i <= t < len + k ensures IsWordChar(w[t]) {
      assert w[t] == w[len..][t - len];
    }
    if i > 0 {
      assert w[len + i - 1] == w[len..][i - 1];
    }
    if len + k < |w| {
      assert w[len + k] == w[len..][k];
    }
  }

  /** A whole word of `w` from `len` on is a whole word of `w[len..]`. */
  lemma {:induction false} WordAtTail(w: string, len: nat, i: nat, k: nat)
    requires len <= i && WordAt(w, i, k)
    ensures WordAt(w[len..], i - len, k - len) && w[len..][i - len..k - len] == w[i..k]
  {
    var v := w[len..];
    forall t | i - len <= t < k - len ensures IsWordChar(v[t]) {
      assert v[t] == w[t + len];
    }
    if i - len > 0 {
      assert v[i - len - 1] == w[i - 1];
    }
    if k - len < |v| {
      assert v[k - len] == w[k];
    }
  }

  /** The run of word characters at the start of `w` is a whole word, when `w` starts with one. */
  lemma {:induction false} WordRunWord(w: string)
    requires w != [] && IsWordChar(w[0])
    ensures WordAt(w, 0, WordRun(w))
  {
    WordRunSpec(w);
  }

  /** A whole word of what follows a run of word characters is a whole word of the text. */
  lemma {:induction false} WordAtAfterRun(w: string, len: nat, i: nat, k: nat)
    requires 0 < len <= |w| && (len == |w| || !IsWordChar(w[len])) && WordAt(w[len..], i, k)
    ensures WordAt(w, len + i, len + k)
  {
    if i == 0 {
      assert w[len..][0] == w[len];
    }
    WordAtShift(w, len, i, k);
  }

  /** Token `j` of the second pass stands for a whole word of `w`. */
  lemma {:induction false} TermScanTok(w: string, n: nat, vocab: set<string>, ps: seq<Piece>, j: nat)
    requires ps == TermScan(w, n, vocab) && j < |ps| && ps[j].Tok?
    ensures WordAt(w, Offset(ps, j), Offset(ps, j) + |ps[j].orig|)
    decreases |w|, 2
  {
    if !IsWordChar(w[0]) {
      TermScanTokSkip(w, n, vocab, ps, j);
    } else {
      TermScanTokRun(w, n, vocab, ps, j);
    }
  }

  /** `TermScanTok` when `w` starts with a character that is kept. */
  lemma {:induction false} TermScanTokSkip(w: string, n: nat, vocab: set<string>, ps: seq<Piece>, j: nat)
    requires w != [] && !IsWordChar(w[0])
    requires ps == TermScan(w, n, vocab) && j < |ps| && ps[j].Tok?
    ensures WordAt(w, Offset(ps, j), Offset(ps, j) + |ps[j].orig|)
    decreases |w|, 1
  {
    assert ps == [Lit(w[0])] + TermScan(w[1..], n, vocab);
    assert Expand([Lit(w[0])]) == [w[0]] + Expand([]);
    TokAfterScan(w, 1, n, vocab, [Lit(w[0])], ps, j);
  }

  /** `TermScanTok` when `w` starts with a run of word characters. */
  lemma {:induction false} TermScanTokRun(w: string, n: nat, vocab: set<string>, ps: seq<Piece>, j: nat)
    requires w != [] && IsWordChar(w[0])
    requires ps == TermScan(w, n, vocab) && j < |ps| && ps[j].Tok?
    ensures WordAt(w, Offset(ps, j), Offset(ps, j) + |ps[j].orig|)
    decreases |w|, 1
  {
    var k := WordRun(w);
    var hit := IsTermWord(w[..k], vocab);
    var m := if hit then n + 1 else n;
    var head := if hit then [Tok(MT, n, w[..k])] else Lits(w[..k]);
    var rest := TermScan(w[k..], m, vocab);
    assert ps == head + rest;
    if j < |head| {
      RunHead(w, k, n, hit, head);
      WordRunWord(w);
      TokFirst(w, k, n, head, rest, ps, j);
    } else {
      RunHeadLength(w, k, n, hit, head);
      WordRunEnd(w);
      TokAfterScan(w, k, m, vocab, head, ps, j);
    }
  }

  /** `TermScanTok` for a token that follows the pieces `head`, which stand for `w[..k]`. */
  lemma {:induction false} TokAfterScan(w: string, k: nat, m: nat, vocab: set<string>, head: seq<Piece>, ps: seq<Piece>, j: nat)
    requires 0 < k <= |w| && ps == head + TermScan(w[k..], m, vocab)
    requires |Expand(head)| == k && |head| <= j < |ps| && ps[j].Tok?
    requires !IsWordChar(w[k - 1]) || k == |w| || !IsWordChar(w[k])
    ensures WordAt(w, Offset(ps, j), Offset(ps, j) + |ps[j].orig|)
    decreases |w|, 0
  {
    var rest := TermScan(w[k..], m, vocab);
    assert ps[j] == rest[j - |head|];
    TermScanTok(w[k..], m, vocab, rest, j - |head|);
    TokAfter(w, k, head, rest, ps, j);
  }

  /** The run of word characters at the start of `w` is not empty when `w` starts with one, and the
      character after it, if any, is not a word character. */
  lemma {:induction false} WordRunEnd(w: string)
    requires w != [] && IsWordChar(w[0])
    ensures 0 < WordRun(w) && (WordRun(w) == |w| || !IsWordChar(w[WordRun(w)]))
  {
    WordRunSpec(w);
  }

  /** A token among the pieces `head` stands for the run `w[..k]` is that whole word. */
  lemma {:induction false} TokFirst(w: string, k: nat, n: nat, head: seq<Piece>, rest: seq<Piece>, ps: seq<Piece>, j: nat)
    requires ps == head + rest && j < |head| && ps[j].Tok? && k <= |w|
    requires forall p :: p in head && p.Tok? ==> p == Tok(MT, n, w[..k]) && |head| == 1
    requires WordAt(w, 0, k)
    ensures WordAt(w, Offset(ps, j), Offset(ps, j) + |ps[j].orig|)
  {
    assert ps[j] == head[j] && head[j] in head;
    assert ps[..0] == [];
  }

  /** A token of `rest` that stands for a whole word of `w[k..]` stands, in `head + rest`, for a
      whole word of `w` when `head` stands for `w[..k]` and that word cannot run on into it. */
  lemma {:induction false} TokAfter(w: string, k: nat, head: seq<Piece>, rest: seq<Piece>, ps: seq<Piece>, j: nat)
    requires ps == head + rest
    requires 0 < k <= |w| && |Expand(head)| == k && |head| <= j < |ps|
    requires !IsWordChar(w[k - 1]) || k == |w| || !IsWordChar(w[k])
    requires rest[j - |head|].Tok?
    requires var o := Offset(rest, j - |head|); WordAt(w[k..], o, o + |rest[j - |head|].orig|)
    ensures ps[j].Tok? && WordAt(w, Offset(ps, j), Offset(ps, j) + |ps[j].orig|)
  {
    OffsetConcat(head, rest, j);
    var o := Offset(rest, j - |head|);
    var tok := rest[j - |head|];
    if !IsWordChar(w[k - 1]) {
      WordAtShift(w, k, o, o + |tok.orig|);
    } else {
      WordAtAfterRun(w, k, o, o + |tok.orig|);
    }
  }

  /** What the run of word characters at the start of `w` becomes: one token, or characters that
      are kept. */
  lemma {:induction false} RunHead(w: string, k: nat, n: nat, hit: bool, head: seq<Piece>)
    requires k <= |w| && head == if hit then [Tok(MT, n, w[..k])] else Lits(w[..k])
    ensures forall p :: p in head && p.Tok? ==> hit && p == Tok(MT, n, w[..k]) && |head| == 1
  {
    LitsSpec(w[..k]);
  }

  /** The pieces the run `w[..k]` becomes stand for `k` characters. */
  lemma {:induction false} RunHeadLength(w: string, k: nat, n: nat, hit: bool, head: seq<Piece>)
    requires k <= |w| && head == if hit then [Tok(MT, n, w[..k])] else Lits(w[..k])
    ensures |Expand(head)| == k
  {
    LitsSpec(w[..k]);
    if hit {
      assert Expand(head) == w[..k] + Expand([]);
    }
  }


  /** A whole word of `w` whose lower case is a term is a token of the second pass, at its place. */
  lemma {:induction false} TermScanFinds(w: string, n: nat, vocab: set<string>, ps: seq<Piece>, i: nat, k: nat)
    requires ps == TermScan(w, n, vocab) && WordAt(w, i, k) && IsTermWord(w[i..k], vocab)
    ensures Masked(ps, i, w[i..k])
    decreases |w|, 1
  {
    if !IsWordChar(w[0]) {
      assert ps == [Lit(w[0])] + TermScan(w[1..], n, vocab);
      assert Expand([Lit(w[0])]) == [w[0]] + Expand([]);
      FindsAfter(w, 1, n, vocab, [Lit(w[0])], ps, i, k);
    } else {
      var k0 := WordRun(w);
      var hit := IsTermWord(w[..k0], vocab);
      var m := if hit then n + 1 else n;
      var head := if hit then [Tok(MT, n, w[..k0])] else Lits(w[..k0]);
      assert ps == head + TermScan(w[k0..], m, vocab);
      if i == 0 {
        RunIsWord(w, k);
        assert w[i..k] == w[..k0];
        assert ps[..0] == [];
        assert TokenAt(ps, 0, i, w[i..k]);
      } else {
        RunBeforeWord(w, i, k);
        RunHeadLength(w, k0, n, hit, head);
        FindsAfter(w, k0, m, vocab, head, ps, i, k);
        }
    }
  }

  /** A whole word at the start of `w` is the run of word characters there. */
  lemma {:induction false} RunIsWord(w: string, k: nat)
    requires WordAt(w, 0, k)
    ensures WordRun(w) == k
  {
    WordRunSpec(w);
  }

  /** A whole word after the start of `w` starts after the run of word characters there. */
  lemma {:induction false} RunBeforeWord(w: string, i: nat, k: nat)
    requires 0 < i && WordAt(w, i, k)
    ensures WordRun(w) < i
  {
    WordRunSpec(w);
  }

  /** `TermScanFinds` for a whole word that starts after the pieces `head`, which stand for
      `w[..len]`. */
  lemma {:induction false} FindsAfter(w: string, len: nat, m: nat, vocab: set<string>, head: seq<Piece>, ps: seq<Piece>, i: nat, k: nat)
    requires WordAt(w, i, k) && IsTermWord(w[i..k], vocab)
    requires 0 < len <= i && ps == head + TermScan(w[len..], m, vocab) && |Expand(head)| == len
    ensures Masked(ps, i, w[i..k])
    decreases |w|, 0
  {
    var rest := TermScan(w[len..], m, vocab);
    WordAtTail(w, len, i, k);
    TermScanFinds(w[len..], m, vocab, rest, i - len, k - len);
    var j :| 0 <= j < |rest| && TokenAt(rest, j, i - len, w[len..][i - len..k - len]);
    TokenShift(head, rest, ps, j, i, len, w[i..k]);
  }

  /** A token of `rest` is one of `head + rest`, further on by what `head` stands for. */
  lemma {:induction false} TokenShift(head: seq<Piece>, rest: seq<Piece>, ps: seq<Piece>, j: int, i: nat, len: nat, word: string)
    requires ps == head + rest && |Expand(head)| == len <= i && TokenAt(rest, j, i - len, word)
    ensures TokenAt(ps, |head| + j, i, word)
  {
    OffsetConcat(head, rest, |head| + j);
  }

  /** Entry `j` is the token `__PH<n + j>__` standing for a placeholder. */
  predicate PlaceholderEntriesFrom(es: seq<Entry>, n: nat) {
    forall j :: 0 <= j < |es| ==> es[j].0 == TokenString(PH, n + j) && IsPlaceholder(es[j].1)
  }

  /** Entry `j` is the token `__MT<n + j>__` standing for a term of `vocab`. */
  predicate TermEntriesFrom(es: seq<Entry>, n: nat, vocab: set<string>) {
    forall j :: 0 <= j < |es| ==> es[j].0 == TokenString(MT, n + j) && IsTermWord(es[j].1, vocab)
  }

  /** The first pass records its placeholders under the tokens numbered from `n`. */
  lemma {:induction false} PlaceholderEntries(s: string, n: nat)
    ensures PlaceholderEntriesFrom(EntriesOf(PlaceholderScan(s, n)), n)
  {
    PlaceholderScanFacts(s, n);
    SequentialEntries(PlaceholderScan(s, n), n, PH, IsPlaceholder);
  }

  /** The second pass records its terms under the tokens numbered from `n`. */
  lemma {:induction false} TermEntries(w: string, n: nat, vocab: set<string>)
    ensures TermEntriesFrom(EntriesOf(TermScan(w, n, vocab)), n, vocab)
  {
    TermScanFacts(w, n, vocab);
    SequentialEntries(TermScan(w, n, vocab), n, MT, x => IsTermWord(x, vocab));
  }

  // ---------------------------------------------------------------------------------------------
  // The two passes seen on one list of pieces

  /** A piece the second pass sees as part of a word: a token (all its characters are word
      characters) or a word character. */
  predicate Wordish(p: Piece) {
    p.Tok? || IsWordChar(p.c)
  }

  function WordishRun(ps: seq<Piece>): (k: nat)
    ensures k <= |ps|
    decreases |ps|
  {
    if ps == [] || !Wordish(ps[0]) then 0 else 1 + WordishRun(ps[1..])
  }

  /** The length of the run of word pieces at the start of `ps`. */
  lemma {:induction false} WordishRunSpec(ps: seq<Piece>)
    ensures forall j :: 0 <= j < WordishRun(ps) ==> Wordish(ps[j])
    ensures WordishRun(ps) < |ps| ==> !Wordish(ps[WordishRun(ps)])
    decreases |ps|
  {
    if ps != [] && Wordish(ps[0]) {
      WordishRunSpec(ps[1..]);
      assert forall j :: 1 <= j < |ps| ==> ps[j] == ps[1..][j - 1];
    }
  }

  /** The second pass applied to the pieces of the first: a word made only of kept characters that
      is a term becomes a token; any other word, in particular one that touches a first-pass token,
      is kept as it is. */
  function TermJoint(ps: seq<Piece>, n: nat, vocab: set<string>): seq<Piece>
    decreases |ps|
  {
    if ps == [] then []
    else if !Wordish(ps[0]) then [ps[0]] + TermJoint(ps[1..], n, vocab)
    else
      var k := WordishRun(ps);
      var word := Render(ps[..k]);
      if AllLit(ps[..k]) && IsTermWord(word, vocab) then [Tok(MT, n, word)] + TermJoint(ps[k..], n + 1, vocab)
      else ps[..k] + TermJoint(ps[k..], n, vocab)
  }

  lemma {:induction false} RenderWordish(qs: seq<Piece>)
    requires forall j :: 0 <= j < |qs| ==> Wordish(qs[j])
    ensures forall i :: 0 <= i < |Render(qs)| ==> IsWordChar(Render(qs)[i])
    decreases |qs|
  {
    if qs != [] {
      RenderWordish(qs[1..]);
      WordishShown(qs[0]);
      var h, r := Shown(qs[0]), Render(qs[1..]);
      assert Render(qs) == h + r;
      WordCharsConcat(h, r);
    }
  }

  /** A piece that is a token or a word character shows as word characters only. */
  lemma {:induction false} WordishShown(p: Piece)
    requires Wordish(p)
    ensures forall i :: 0 <= i < |Shown(p)| ==> IsWordChar(Shown(p)[i])
  {
    if p.Tok? {
      TokenShape(p.kind, p.n);
    }
  }

  /** Two texts of word characters make one. */
  lemma {:induction false} WordCharsConcat(a: string, b: string)
    requires forall i :: 0 <= i < |a| ==> IsWordChar(a[i])
    requires forall i :: 0 <= i < |b| ==> IsWordChar(b[i])
    ensures forall i :: 0 <= i < |a + b| ==> IsWordChar((a + b)[i])
  {
    assert forall i :: |a| <= i < |a + b| ==> (a + b)[i] == b[i - |a|];
  }

  /** A rendering shows an underscore wherever a token is among the pieces. */
  lemma {:induction false} TokensShowUnderscore(qs: seq<Piece>)
    ensures AllLit(qs) || '_' in Render(qs)
    decreases |qs|
  {
    if qs != [] {
      TokensShowUnderscore(qs[1..]);
      var h, r := Shown(qs[0]), Render(qs[1..]);
      assert Render(qs) == h + r;
      if qs[0].Tok? {
        TokenShape(qs[0].kind, qs[0].n);
        assert (h + r)[0] == '_';
      } else if AllLit(qs[1..]) {
        assert forall j :: 1 <= j < |qs| ==> qs[j] == qs[1..][j - 1];
      }
    }
  }

  /** What the second pass does with a word made of the first pieces of `ps`. */
  lemma {:induction false} TermScanStep(ps: seq<Piece>, n: nat, vocab: set<string>)
    requires ps != [] && Wordish(ps[0]) && LetterWords(vocab)
    ensures var k := WordishRun(ps); var word, rest := Render(ps[..k]), Render(ps[k..]);
      && 0 < k
      && (IsTermWord(word, vocab) ==> AllLit(ps[..k]))
      && TermScan(Render(ps), n, vocab) ==
           if IsTermWord(word, vocab) then [Tok(MT, n, word)] + TermScan(rest, n + 1, vocab)
           else Lits(word) + TermScan(rest, n, vocab)
  {
    var k := WordishRun(ps);
    var word, rest := Render(ps[..k]), Render(ps[k..]);
    SplitAt(ps, k);
    PiecesConcat(ps[..k], ps[k..]);
    WordishWord(ps, k, word, rest);
    ConcatParts(word, rest);
    if IsTermWord(word, vocab) {
      TermWordIsLits(ps[..k], vocab);
    }
  }

  /** The run of word pieces at the start of `ps` shows the run of word characters the second pass
      takes as its next word. */
  lemma {:induction false} WordishWord(ps: seq<Piece>, k: nat, word: string, rest: string)
    requires ps != [] && Wordish(ps[0]) && k == WordishRun(ps)
    requires word == Render(ps[..k]) && rest == Render(ps[k..])
    ensures 0 < k && |word| > 0 && IsWordChar((word + rest)[0]) && WordRun(word + rest) == |word|
  {
    WordishRunSpec(ps);
    RenderWordish(ps[..k]);
    assert |word| > 0 by {
      assert word == Shown(ps[..k][0]) + Render(ps[..k][1..]);
    }
    if k < |ps| {
      assert ps[k..] == [ps[k]] + ps[k + 1..];
      PiecesConcat([ps[k]], ps[k + 1..]);
      assert rest[0] == ps[k].c;
    }
    var w := word + rest;
    assert forall i :: 0 <= i < |word| ==> w[i] == word[i];
    SkipWhileExact(w, 0, IsWordChar, |word|);
  }

  /** A term never contains a token, since terms are made of letters and tokens show underscores. */
  lemma {:induction false} TermWordIsLits(qs: seq<Piece>, vocab: set<string>)
    requires LetterWords(vocab) && IsTermWord(Render(qs), vocab)
    ensures AllLit(qs)
  {
    LoweredLettersHaveNoUnderscore(Render(qs));
    TokensShowUnderscore(qs);
  }

  lemma {:induction false} LoweredLettersHaveNoUnderscore(word: string)
    requires IsLetters(ToLower(word))
    ensures '_' !in word
  {
    ToLowerSpec(word);
    forall i | 0 <= i < |word| ensures IsAsciiLetter(word[i]) {
      assert IsAsciiLetter(ToLower(word)[i]);
    }
  }

  /** The second pass over the rendered first pass shows the same text as the joint pieces, which
      still expand to what the first pieces expand to. */
  lemma {:induction false} TermJointRender(ps: seq<Piece>, n: nat, vocab: set<string>)
    requires LetterWords(vocab)
    ensures Render(TermJoint(ps, n, vocab)) == Render(TermScan(Render(ps), n, vocab))
    ensures Expand(TermJoint(ps, n, vocab)) == Expand(ps)
    decreases |ps|, 1
  {
    if ps != [] {
      if !Wordish(ps[0]) {
        TermJointRenderSkip(ps, n, vocab);
      } else {
        var k := WordishRun(ps);
        TermScanStep(ps, n, vocab);
        if IsTermWord(Render(ps[..k]), vocab) {
          TermJointRenderHit(ps, k, n, vocab);
        } else {
          TermJointRenderMiss(ps, k, n, vocab);
        }
      }
    }
  }

  /** The case of `TermJointRender` where the first piece is not part of a word. */
  lemma {:induction false} TermJointRenderSkip(ps: seq<Piece>, n: nat, vocab: set<string>)
    requires LetterWords(vocab)
    requires ps != [] && !Wordish(ps[0])
    ensures Render(TermJoint(ps, n, vocab)) == Render(TermScan(Render(ps), n, vocab))
    ensures Expand(TermJoint(ps, n, vocab)) == Expand(ps)
    decreases |ps|, 0
  {
    var joint := TermJoint(ps[1..], n, vocab);
    var tail := TermScan(Render(ps[1..]), n, vocab);
    assert TermJoint(ps, n, vocab) == [ps[0]] + joint;
    TermScanSkip(ps, n, vocab);
    TermJointRender(ps[1..], n, vocab);
    PiecesConcat([ps[0]], joint);
    PiecesConcat([ps[0]], tail);
    assert ps == [ps[0]] + ps[1..];
    PiecesConcat([ps[0]], ps[1..]);
  }

  /** The case of `TermJointRender` where the first word is a term. */
  lemma {:induction false} TermJointRenderHit(ps: seq<Piece>, k: nat, n: nat, vocab: set<string>)
    requires LetterWords(vocab)
    requires ps != [] && Wordish(ps[0]) && k == WordishRun(ps)
    requires IsTermWord(Render(ps[..k]), vocab) && AllLit(ps[..k])
    requires TermScan(Render(ps), n, vocab) ==
      [Tok(MT, n, Render(ps[..k]))] + TermScan(Render(ps[k..]), n + 1, vocab)
    ensures Render(TermJoint(ps, n, vocab)) == Render(TermScan(Render(ps), n, vocab))
    ensures Expand(TermJoint(ps, n, vocab)) == Expand(ps)
    decreases |ps|, 0
  {
    var word := Render(ps[..k]);
    var tok := Tok(MT, n, word);
    var joint := TermJoint(ps[k..], n + 1, vocab);
    assert TermJoint(ps, n, vocab) == [tok] + joint;
    TermJointRender(ps[k..], n + 1, vocab);
    PiecesConcat([tok], joint);
    PiecesConcat([tok], TermScan(Render(ps[k..]), n + 1, vocab));
    LitsRender(ps[..k]);
    SplitAt(ps, k);
    PiecesConcat(ps[..k], ps[k..]);
  }

  /** The case of `TermJointRender` where the first word is not a term. */
  lemma {:induction false} TermJointRenderMiss(ps: seq<Piece>, k: nat, n: nat, vocab: set<string>)
    requires LetterWords(vocab)
    requires ps != [] && Wordish(ps[0]) && k == WordishRun(ps)
    requires !IsTermWord(Render(ps[..k]), vocab)
    requires TermScan(Render(ps), n, vocab) == Lits(Render(ps[..k])) + TermScan(Render(ps[k..]), n, vocab)
    ensures Render(TermJoint(ps, n, vocab)) == Render(TermScan(Render(ps), n, vocab))
    ensures Expand(TermJoint(ps, n, vocab)) == Expand(ps)
    decreases |ps|, 0
  {
    var word := Render(ps[..k]);
    var joint := TermJoint(ps[k..], n, vocab);
    var tail := TermScan(Render(ps[k..]), n, vocab);
    var lits := Lits(word);
    LitsSpec(word);
    assert TermJoint(ps, n, vocab) == ps[..k] + joint;
    TermJointRender(ps[k..], n, vocab);
    RenderConcat(ps[..k], joint);
    RenderConcat(lits, tail);
    assert Render(lits) == word;
    ExpandConcat(ps[..k], joint);
    SplitAt(ps, k);
    ExpandConcat(ps[..k], ps[k..]);
  }

  /** The second pass copies a character it does not count as part of a word. */
  lemma {:induction false} TermScanSkip(ps: seq<Piece>, n: nat, vocab: set<string>)
    requires ps != [] && !Wordish(ps[0])
    ensures TermScan(Render(ps), n, vocab) == [ps[0]] + TermScan(Render(ps[1..]), n, vocab)
  {
    assert ps == [ps[0]] + ps[1..];
    PiecesConcat([ps[0]], ps[1..]);
    var w := Render(ps);
    assert w == [ps[0].c] + Render(ps[1..]);
    assert w[1..] == Render(ps[1..]);
  }

  /** A mapping that records the first pieces and, from `n` on, the entries of the second pass
      records the joint pieces. */
  lemma {:induction false} TermJointAgrees(ps: seq<Piece>, n: nat, M: seq<Entry>, vocab: set<string>)
    requires LetterWords(vocab)
    requires Agrees(ps, M)
    requires Hosts(M, n, EntriesOf(TermScan(Render(ps), n, vocab)))
    ensures Agrees(TermJoint(ps, n, vocab), M)
    decreases |ps|, 1
  {
    if ps != [] {
      if !Wordish(ps[0]) {
        TermJointAgreesSkip(ps, n, M, vocab);
      } else {
        var k := WordishRun(ps);
        TermScanStep(ps, n, vocab);
        AgreesSlice(ps, k, |ps|, M);
        if IsTermWord(Render(ps[..k]), vocab) {
          TermJointAgreesHit(ps, k, n, M, vocab);
        } else {
          AgreesSlice(ps, 0, k, M);
          TermJointAgreesMiss(ps, k, n, M, vocab);
        }
      }
    }
  }

  /** The case of `TermJointAgrees` where the first piece is not part of a word. */
  lemma {:induction false} TermJointAgreesSkip(ps: seq<Piece>, n: nat, M: seq<Entry>, vocab: set<string>)
    requires LetterWords(vocab)
    requires ps != [] && !Wordish(ps[0])
    requires Agrees(ps, M)
    requires Hosts(M, n, EntriesOf(TermScan(Render(ps), n, vocab)))
    ensures Agrees(TermJoint(ps, n, vocab), M)
    decreases |ps|, 0
  {
    var tail := TermScan(Render(ps[1..]), n, vocab);
    TermScanSkip(ps, n, vocab);
    PiecesConcat([ps[0]], tail);
    assert EntriesOf([ps[0]]) == [];
    assert EntriesOf(TermScan(Render(ps), n, vocab)) == EntriesOf(tail);
    AgreesSlice(ps, 1, |ps|, M);
    TermJointAgrees(ps[1..], n, M, vocab);
    assert Agrees([ps[0]], M);
    AgreesConcat([ps[0]], TermJoint(ps[1..], n, vocab), M);
    assert TermJoint(ps, n, vocab) == [ps[0]] + TermJoint(ps[1..], n, vocab);
  }

  /** The case of `TermJointAgrees` where the first word is not a term. */
  lemma {:induction false} TermJointAgreesMiss(ps: seq<Piece>, k: nat, n: nat, M: seq<Entry>, vocab: set<string>)
    requires LetterWords(vocab)
    requires ps != [] && Wordish(ps[0]) && k == WordishRun(ps)
    requires Agrees(ps[..k], M) && Agrees(ps[k..], M)
    requires !IsTermWord(Render(ps[..k]), vocab)
    requires TermScan(Render(ps), n, vocab) == Lits(Render(ps[..k])) + TermScan(Render(ps[k..]), n, vocab)
    requires Hosts(M, n, EntriesOf(TermScan(Render(ps), n, vocab)))
    ensures Agrees(TermJoint(ps, n, vocab), M)
    decreases |ps|, 0
  {
    var word, rest := Render(ps[..k]), Render(ps[k..]);
    var tail := TermScan(rest, n, vocab);
    LitsSpec(word);
    PiecesConcat(Lits(word), tail);
    assert EntriesOf(TermScan(Render(ps), n, vocab)) == EntriesOf(tail);
    TermJointAgrees(ps[k..], n, M, vocab);
    AgreesConcat(ps[..k], TermJoint(ps[k..], n, vocab), M);
    assert TermJoint(ps, n, vocab) == ps[..k] + TermJoint(ps[k..], n, vocab);
  }

  /** The case of `TermJointAgrees` where the first word is a term. */
  lemma {:induction false} TermJointAgreesHit(ps: seq<Piece>, k: nat, n: nat, M: seq<Entry>, vocab: set<string>)
    requires LetterWords(vocab)
    requires ps != [] && Wordish(ps[0]) && k == WordishRun(ps)
    requires Agrees(ps[k..], M)
    requires IsTermWord(Render(ps[..k]), vocab)
    requires TermScan(Render(ps), n, vocab) ==
      [Tok(MT, n, Render(ps[..k]))] + TermScan(Render(ps[k..]), n + 1, vocab)
    requires Hosts(M, n, EntriesOf(TermScan(Render(ps), n, vocab)))
    ensures Agrees(TermJoint(ps, n, vocab), M)
    decreases |ps|, 0
  {
    var word, rest := Render(ps[..k]), Render(ps[k..]);
    var tok := Tok(MT, n, word);
    var e := (TokenString(MT, n), word);
    PiecesConcat([tok], TermScan(rest, n + 1, vocab));
    HostsTail(M, n, e, EntriesOf(TermScan(rest, n + 1, vocab)));
    TermJointAgrees(ps[k..], n + 1, M, vocab);
    assert Agrees([tok], M);
    TermScanStep(ps, n, vocab);
    AgreesConcat([tok], TermJoint(ps[k..], n + 1, vocab), M);
  }
}
