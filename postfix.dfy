/** `post_fix_translated_content`: after translation every string is rewritten word by word. A
    doubled apostrophe becomes a typographic one, the whitespace is collapsed to single blanks, and a
    word that spells a protected term in some other casing gets the casing of the vocabulary back.
    Dictionaries and lists are rebuilt around the rewritten strings. */
module PostFix {
  import opened Text
  import opened Terms
  import opened Document

  datatype Option<T> = None | Some(value: T)

  /** The word characters of `w`, every other character removed. */
  function WordChars(w: string): string
    decreases |w|
  {
    if w == [] then [] else (if IsWordChar(w[0]) then [w[0]] else []) + WordChars(w[1..])
  }

  /** `\b` at position `p`: a word character on exactly one side. */
  predicate Boundary(w: string, p: nat)
    requires p <= |w|
  {
    (p > 0 && IsWordChar(w[p - 1])) != (p < |w| && IsWordChar(w[p]))
  }

  /** Every whole-word occurrence of `t` in `w` replaced by `r`, scanning from position `p`. `t` is
      made of word characters, which `re.escape` leaves as they are. A match is replaced and the
      scan goes on after it; an empty `t` matches at every boundary. */
  function SubWord(w: string, t: string, r: string, p: nat): string
    requires p <= |w|
    decreases |w| - p
  {
    if Boundary(w, p) && OccursAt(w, t, p) && Boundary(w, p + |t|) then
      if |t| > 0 then r + SubWord(w, t, r, p + |t|)
      else if p == |w| then r
      else r + [w[p]] + SubWord(w, t, r, p + 1)
    else if p == |w| then []
    else [w[p]] + SubWord(w, t, r, p + 1)
  }

  /** The term at which the loop `for orig in MINECRAFT_TERMS` stops, for the iteration order
      `order`: the first one whose lower case is `lw`. */
  function FirstWithLower(order: seq<string>, lw: string): Option<string>
    decreases |order|
  {
    if order == [] then None
    else if ToLower(order[0]) == lw then Some(order[0])
    else FirstWithLower(order[1..], lw)
  }

  /** The repair of `words[i]`: when the word's characters, lowered, spell a term of `vocab`, the
      occurrences of those characters as a whole word take the casing of the term. */
  function FixWord(w: string, vocab: set<string>, order: seq<string>): string {
    var stripped := WordChars(w);
    var lw := ToLower(stripped);
    if lw in vocab then
      match FirstWithLower(order, lw)
      case Some(orig) => SubWord(w, stripped, orig, 0)
      case None => w
    else w
  }

  function FixWords(ws: seq<string>, vocab: set<string>, order: seq<string>): (fixed: seq<string>)
    ensures |fixed| == |ws|
  {
    seq(|ws|, i requires 0 <= i < |ws| => FixWord(ws[i], vocab, order))
  }

  /** Every doubled apostrophe `''` turned into the typographic apostrophe `’`. */
  function ReplaceDoubled(s: string): string {
    if Contains(s, "''") then ReplaceAll(s, "''", "’") else s
  }

  /** The string branch of `post_fix_translated_content`, with the term test against `vocab` and the
      set `MINECRAFT_TERMS` iterated in the order `order`. */
  function PostFixStringWith(s: string, vocab: set<string>, order: seq<string>): string {
    Join(FixWords(Split(ReplaceDoubled(s)), vocab, order), " ")
  }

  /** The string branch of `post_fix_translated_content`. */
  function PostFixString(s: string, order: seq<string>): string {
    PostFixStringWith(s, LowerTerms, order)
  }

  /** `post_fix_translated_content(obj)`. */
  function PostFixValue(n: Node, vocab: set<string>, order: seq<string>): Node
    decreases n
  {
    match n
    case Str(s) => Str(PostFixStringWith(s, vocab, order))
    case Map(fs) => Map(seq(|fs|, i requires 0 <= i < |fs| => Field(fs[i].key, PostFixValue(fs[i].value, vocab, order))))
    case List(xs) => List(seq(|xs|, i requires 0 <= i < |xs| => PostFixValue(xs[i], vocab, order)))
    case _ => n
  }

  // ---------------------------------------------------------------------------------------------
  // The shape of the document is kept

  /** `post_fix_translated_content` keeps the keys of every dictionary in their order, the length of
      every list and every value that is not a string; each string is post-fixed in its place. */
  lemma {:induction false} PostFixShape(n: Node, vocab: set<string>, order: seq<string>)
    ensures SameShape(n, PostFixValue(n, vocab, order))
    ensures n.Str? ==> PostFixValue(n, vocab, order) == Str(PostFixStringWith(n.s, vocab, order))
    decreases n
  {
    match n
    case Map(fs) =>
      forall i | 0 <= i < |fs| ensures SameShape(fs[i].value, PostFixValue(fs[i].value, vocab, order)) {
        PostFixShape(fs[i].value, vocab, order);
      }
    case List(xs) =>
      forall i | 0 <= i < |xs| ensures SameShape(xs[i], PostFixValue(xs[i], vocab, order)) {
        PostFixShape(xs[i], vocab, order);
      }
    case _ =>
  }

  // ---------------------------------------------------------------------------------------------
  // Casing: the repair of a word changes at most the case of its letters

  /** The term found has the lower case it was looked up by, and it is the first such. */
  lemma {:induction false} FirstWithLowerSpec(order: seq<string>, lw: string)
    ensures FirstWithLower(order, lw).Some? ==>
      exists k :: 0 <= k < |order| && order[k] == FirstWithLower(order, lw).value && ToLower(order[k]) == lw
        && forall j :: 0 <= j < k ==> ToLower(order[j]) != lw
    ensures FirstWithLower(order, lw).None? ==> forall j :: 0 <= j < |order| ==> ToLower(order[j]) != lw
    decreases |order|
  {
    if order != [] && ToLower(order[0]) != lw {
      var tail := order[1..];
      FirstWithLowerSpec(tail, lw);
      if FirstWithLower(tail, lw).Some? {
        var k :| 0 <= k < |tail| && tail[k] == FirstWithLower(tail, lw).value && ToLower(tail[k]) == lw
          && forall j :: 0 <= j < k ==> ToLower(tail[j]) != lw;
        assert order[k + 1] == tail[k];
        assert forall j :: 0 < j < k + 1 ==> order[j] == tail[j - 1];
      } else {
        assert forall j :: 0 < j < |order| ==> order[j] == tail[j - 1];
      }
    }
  }

  /** Replacing whole-word occurrences of `t` by a text of the same lower case keeps the lower case. */
  lemma {:induction false} SubWordLower(w: string, t: string, r: string, p: nat)
    requires p <= |w| && ToLower(r) == ToLower(t)
    ensures ToLower(SubWord(w, t, r, p)) == ToLower(w[p..])
    decreases |w| - p, 1
  {
    ToLowerSpec(r);
    ToLowerSpec(t);
    if Boundary(w, p) && OccursAt(w, t, p) && Boundary(w, p + |t|) && |t| > 0 {
      SubWordHit(w, t, r, p);
    } else if p < |w| {
      SubWordCopy(w, t, r, p);
    } else {
      assert w[p..] == [];
    }
  }

  /** The step of `SubWordLower` at a match. */
  lemma {:induction false} SubWordHit(w: string, t: string, r: string, p: nat)
    requires p <= |w| && ToLower(r) == ToLower(t) && |t| > 0
    requires Boundary(w, p) && OccursAt(w, t, p) && Boundary(w, p + |t|)
    ensures ToLower(SubWord(w, t, r, p)) == ToLower(w[p..])
    decreases |w| - p, 0
  {
    var rest, tail := SubWord(w, t, r, p + |t|), w[p + |t|..];
    assert SubWord(w, t, r, p) == r + rest;
    SubWordLower(w, t, r, p + |t|);
    ToLowerConcat(r, rest);
    assert w[p..] == t + tail;
    ToLowerConcat(t, tail);
  }

  /** The step of `SubWordLower` at a character that is copied. */
  lemma {:induction false} SubWordCopy(w: string, t: string, r: string, p: nat)
    requires p < |w| && ToLower(r) == ToLower(t)
    requires !(Boundary(w, p) && OccursAt(w, t, p) && Boundary(w, p + |t|) && |t| > 0)
    ensures ToLower(SubWord(w, t, r, p)) == ToLower(w[p..])
    decreases |w| - p, 0
  {
    ToLowerSpec(r);
    ToLowerSpec(t);
    var rest, tail := SubWord(w, t, r, p + 1), w[p + 1..];
    if |t| == 0 {
      assert r == [];
    }
    assert SubWord(w, t, r, p) == [w[p]] + rest;
    SubWordLower(w, t, r, p + 1);
    ToLowerConcat([w[p]], rest);
    assert w[p..] == [w[p]] + tail;
    ToLowerConcat([w[p]], tail);
  }

  /** The repair of a word changes at most the case of its letters. */
  lemma {:induction false} FixWordLower(w: string, vocab: set<string>, order: seq<string>)
    ensures ToLower(FixWord(w, vocab, order)) == ToLower(w)
  {
    var stripped := WordChars(w);
    var lw := ToLower(stripped);
    if lw in vocab && FirstWithLower(order, lw).Some? {
      FirstWithLowerSpec(order, lw);
      SubWordLower(w, stripped, FirstWithLower(order, lw).value, 0);
      assert w[0..] == w;
    }
  }

  /** When `MINECRAFT_TERMS` is iterated in `order`, the loop always finds a term for a word whose
      lower case is in `LOWER_TERMS`. */
  lemma {:induction false} TermLookupFound(order: seq<string>, lw: string)
    requires forall t :: t in MinecraftTerms ==> t in order
    requires lw in LowerTerms
    ensures FirstWithLower(order, lw).Some?
  {
    var t :| t in MinecraftTerms && ToLower(t) == lw;
    var k :| 0 <= k < |order| && order[k] == t;
    FirstWithLowerSpec(order, lw);
  }

  lemma {:induction false} WordCharsOfWord(w: string)
    requires forall i :: 0 <= i < |w| ==> IsWordChar(w[i])
    ensures WordChars(w) == w
    decreases |w|
  {
    if w != [] {
      WordCharsOfWord(w[1..]);
    }
  }

  /** No character of `x` is a word character. */
  predicate NoWordChar(x: string) {
    forall i :: 0 <= i < |x| ==> !IsWordChar(x[i])
  }

  lemma {:induction false} WordCharsConcat(a: string, b: string)
    ensures WordChars(a + b) == WordChars(a) + WordChars(b)
    decreases |a|
  {
    var ab := a + b;
    if a == [] {
      assert ab == b;
    } else {
      var h := if IsWordChar(a[0]) then [a[0]] else [];
      assert ab[0] == a[0] && ab[1..] == a[1..] + b;
      assert WordChars(ab) == h + WordChars(a[1..] + b);
      assert WordChars(a) == h + WordChars(a[1..]);
      WordCharsConcat(a[1..], b);
      assert h + (WordChars(a[1..]) + WordChars(b)) == (h + WordChars(a[1..])) + WordChars(b);
    }
  }

  lemma {:induction false} WordCharsNone(x: string)
    requires NoWordChar(x)
    ensures WordChars(x) == []
    decreases |x|
  {
    if x != [] {
      WordCharsNone(x[1..]);
    }
  }

  /** A character that is not a word character cannot start `t` when `t` starts with one, so
      `SubWord` copies it. */
  lemma {:induction false} SubWordStep(w: string, t: string, r: string, p: nat)
    requires p < |w| && |t| > 0 && IsWordChar(t[0]) && !IsWordChar(w[p])
    ensures SubWord(w, t, r, p) == [w[p]] + SubWord(w, t, r, p + 1)
  {
    if p + |t| <= |w| {
      assert w[p..p + |t|][0] == w[p] != t[0];
    }
    assert !OccursAt(w, t, p);
  }

  /** A run of characters that are not word characters is copied as it is. */
  lemma {:induction false} SubWordSkip(w: string, t: string, r: string, p: nat, q: nat)
    requires p <= q <= |w| && |t| > 0 && IsWordChar(t[0])
    requires forall i :: p <= i < q ==> !IsWordChar(w[i])
    ensures SubWord(w, t, r, p) == w[p..q] + SubWord(w, t, r, q)
    decreases q - p
  {
    if p < q {
      SubWordStep(w, t, r, p);
      SubWordSkip(w, t, r, p + 1, q);
      assert w[p..q] == [w[p]] + w[p + 1..q];
    }
  }

  /** A whole-word occurrence of `t` is replaced by `r`. */
  lemma {:induction false} SubWordMatch(w: string, t: string, r: string, a: nat)
    requires |t| > 0 && a + |t| <= |w| && w[a..a + |t|] == t
    requires IsWordChar(t[0]) && IsWordChar(t[|t| - 1])
    requires a == 0 || !IsWordChar(w[a - 1])
    requires a + |t| == |w| || !IsWordChar(w[a + |t|])
    ensures SubWord(w, t, r, a) == r + SubWord(w, t, r, a + |t|)
  {
    assert w[a] == w[a..a + |t|][0];
    assert w[a + |t| - 1] == w[a..a + |t|][|t| - 1];
    assert Boundary(w, a) && OccursAt(w, t, a) && Boundary(w, a + |t|);
  }

  /** `t`, a run of word characters standing alone among characters that are not word characters,
      is replaced by `r` and the rest of `w` is kept. */
  lemma {:induction false} SubWordAround(w: string, t: string, r: string, a: nat)
    requires |t| > 0 && forall i :: 0 <= i < |t| ==> IsWordChar(t[i])
    requires a + |t| <= |w| && w[a..a + |t|] == t
    requires forall i :: 0 <= i < a ==> !IsWordChar(w[i])
    requires forall i :: a + |t| <= i < |w| ==> !IsWordChar(w[i])
    ensures SubWord(w, t, r, 0) == w[..a] + r + w[a + |t|..]
  {
    var b := a + |t|;
    SubWordSkip(w, t, r, 0, a);
    SubWordMatch(w, t, r, a);
    SubWordSkip(w, t, r, b, |w|);
    assert SubWord(w, t, r, |w|) == [];
    assert w[0..a] == w[..a] && w[b..|w|] == w[b..];
  }

  /** The word characters of a run of them with none around it are the run. */
  lemma {:induction false} WordCharsAround(pre: string, t: string, suf: string)
    requires NoWordChar(pre) && NoWordChar(suf)
    requires forall i :: 0 <= i < |t| ==> IsWordChar(t[i])
    ensures WordChars(pre + t + suf) == t
  {
    WordCharsConcat(pre + t, suf);
    WordCharsConcat(pre, t);
    WordCharsNone(pre);
    WordCharsNone(suf);
    WordCharsOfWord(t);
    assert [] + t + [] == t;
  }

  /** A term in any casing, with punctuation or other characters that are not word characters before
      and after it (`"chunk."`), comes back spelt as the term that the loop finds, its surroundings
      kept. */
  lemma {:induction false} FixAffixedTerm(pre: string, t: string, suf: string, vocab: set<string>, order: seq<string>)
    requires NoWordChar(pre) && NoWordChar(suf)
    requires |t| > 0 && forall i :: 0 <= i < |t| ==> IsWordChar(t[i])
    requires ToLower(t) in vocab && FirstWithLower(order, ToLower(t)).Some?
    ensures FixWord(pre + t + suf, vocab, order) == pre + FirstWithLower(order, ToLower(t)).value + suf
  {
    var w := pre + t + suf;
    var r := FirstWithLower(order, ToLower(t)).value;
    var a := |pre|;
    WordCharsAround(pre, t, suf);
    assert w[..a] == pre && w[a..a + |t|] == t && w[a + |t|..] == suf;
    assert forall i :: 0 <= i < a ==> w[i] == pre[i];
    assert forall i :: a + |t| <= i < |w| ==> w[i] == suf[i - a - |t|];
    SubWordAround(w, t, r, a);
  }

  /** A word that is nothing but the characters of a term, in any casing, comes back spelt as the
      term that the loop finds: the case of `FixAffixedTerm` with nothing around the term. */
  lemma {:induction false} FixTermWord(w: string, vocab: set<string>, order: seq<string>)
    requires |w| > 0 && forall i :: 0 <= i < |w| ==> IsWordChar(w[i])
    requires ToLower(w) in vocab && FirstWithLower(order, ToLower(w)).Some?
    ensures FixWord(w, vocab, order) == FirstWithLower(order, ToLower(w)).value
  {
    FixAffixedTerm([], w, [], vocab, order);
    assert [] + w + [] == w;
    assert [] + FirstWithLower(order, ToLower(w)).value + [] == FirstWithLower(order, ToLower(w)).value;
  }

  // ---------------------------------------------------------------------------------------------
  // What the lower case of a string tells about it

  /** No two apostrophes in a row. */
  predicate NoDoubled(s: string) {
    forall p :: 0 <= p < |s| - 1 ==> !(s[p] == '\'' && s[p + 1] == '\'')
  }

  lemma {:induction false} NoDoubledContains(s: string)
    ensures NoDoubled(s) <==> !Contains(s, "''")
  {
    if !NoDoubled(s) {
      var p :| 0 <= p < |s| - 1 && s[p] == '\'' && s[p + 1] == '\'';
      assert OccursAt(s, "''", p);
    }
    if Contains(s, "''") {
      var p: nat :| p <= |s| && OccursAt(s, "''", p);
      assert s[p] == s[p..p + 2][0] && s[p + 1] == s[p..p + 2][1];
    }
  }

  /** Strings with the same lower case have their whitespace and their apostrophes in the same places. */
  lemma {:induction false} SameLower(a: string, b: string)
    requires ToLower(a) == ToLower(b)
    ensures IsWord(a) <==> IsWord(b)
    ensures NoDoubled(a) <==> NoDoubled(b)
  {
    ToLowerSpec(a);
    ToLowerSpec(b);
    assert forall i :: 0 <= i < |a| ==> LowerChar(a[i]) == LowerChar(b[i]);
    assert forall i :: 0 <= i < |a| ==> (IsSpace(a[i]) <==> IsSpace(b[i]));
    assert forall i :: 0 <= i < |a| ==> (a[i] == '\'' <==> b[i] == '\'');
  }

  // ---------------------------------------------------------------------------------------------
  // No doubled apostrophe is left

  /** Replacing `''` leaves none. */
  lemma {:induction false} ReplaceAllNoDoubled(s: string)
    ensures NoDoubled(ReplaceAll(s, "''", "’"))
    decreases |s|
  {
    if |s| >= 2 {
      if s[..2] == "''" {
        ReplaceAllNoDoubled(s[2..]);
        NoDoubledCons('’', ReplaceAll(s[2..], "''", "’"));
      } else {
        var y := ReplaceAll(s[1..], "''", "’");
        ReplaceAllNoDoubled(s[1..]);
        if s[0] == '\'' {
          assert s[1] != '\'';
          ReplaceAllHead(s[1..]);
        }
        NoDoubledCons(s[0], y);
      }
    }
  }

  /** A text that does not start with an apostrophe keeps its first character. */
  lemma {:induction false} ReplaceAllHead(x: string)
    requires x != [] && x[0] != '\''
    ensures ReplaceAll(x, "''", "’") != [] && ReplaceAll(x, "''", "’")[0] == x[0]
  {
    if |x| >= 2 {
      assert x[..2] != "''";
    }
  }

  lemma {:induction false} NoDoubledCons(c: char, y: string)
    requires NoDoubled(y) && (c != '\'' || y == [] || y[0] != '\'')
    ensures NoDoubled([c] + y)
  {
    var s := [c] + y;
    forall p | 0 < p < |s| - 1 ensures !(s[p] == '\'' && s[p + 1] == '\'') {
      assert s[p] == y[p - 1] && s[p + 1] == y[p];
    }
  }

  lemma {:induction false} NoDoubledSlices(s: string, k: nat)
    requires NoDoubled(s) && k <= |s|
    ensures NoDoubled(s[..k]) && NoDoubled(s[k..])
  {
    var a, b := s[..k], s[k..];
    assert forall p :: 0 <= p < |a| ==> a[p] == s[p];
    assert forall p :: 0 <= p < |b| ==> b[p] == s[k + p];
  }

  /** The words of a text without `''` have none. */
  lemma {:induction false} SplitNoDoubled(s: string)
    requires NoDoubled(s)
    ensures forall j :: 0 <= j < |Split(s)| ==> NoDoubled(Split(s)[j])
    decreases |s|
  {
    if s != [] {
      if IsSpace(s[0]) {
        NoDoubledSlices(s, 1);
        SplitNoDoubled(s[1..]);
      } else {
        var k := NonSpaceRun(s);
        NoDoubledSlices(s, k);
        SplitNoDoubled(s[k..]);
      }
    }
  }

  /** Words without `''`, joined by blanks, give a text without `''`. */
  lemma {:induction false} JoinNoDoubled(ws: seq<string>)
    requires forall j :: 0 <= j < |ws| ==> IsWord(ws[j]) && NoDoubled(ws[j])
    ensures NoDoubled(Join(ws, " "))
    decreases |ws|
  {
    if |ws| > 1 {
      JoinNoDoubled(ws[1..]);
      var rest := Join(ws[1..], " ");
      NoDoubledCons(' ', rest);
      var w := ws[0];
      var s := w + ([' '] + rest);
      assert Join(ws, " ") == s;
      forall p | 0 <= p < |s| - 1 ensures !(s[p] == '\'' && s[p + 1] == '\'') {
        if p < |w| - 1 {
          assert s[p] == w[p] && s[p + 1] == w[p + 1];
        } else if p == |w| - 1 {
          assert s[p + 1] == ' ';
        } else {
          assert s[p] == ([' '] + rest)[p - |w|] && s[p + 1] == ([' '] + rest)[p + 1 - |w|];
        }
      }
    }
  }

  // ---------------------------------------------------------------------------------------------
  // The word count is that of the original string

  /** The number of places in `s` where a word starts, `prevSpace` telling whether the text before
      `s` ended in whitespace or is empty. */
  function WordStarts(s: string, prevSpace: bool): nat
    decreases |s|
  {
    if s == [] then 0
    else (if prevSpace && !IsSpace(s[0]) then 1 else 0) + WordStarts(s[1..], IsSpace(s[0]))
  }

  /** Inside a run of non-whitespace no word starts. */
  lemma {:induction false} WordStartsRun(s: string, i: nat, j: nat)
    requires 0 < i <= j <= |s| && forall k :: i - 1 <= k < j ==> !IsSpace(s[k])
    ensures WordStarts(s[i..], false) == WordStarts(s[j..], false)
    decreases j - i
  {
    if i < j {
      assert s[i..][1..] == s[i + 1..];
      WordStartsRun(s, i + 1, j);
    }
  }

  /** `str.split()` gives one word per word start. */
  lemma {:induction false} SplitCount(s: string)
    ensures |Split(s)| == WordStarts(s, true)
    decreases |s|
  {
    if s != [] {
      if IsSpace(s[0]) {
        SplitCount(s[1..]);
      } else {
        var k := NonSpaceRun(s);
        NonSpaceRunSpec(s);
        SplitCount(s[k..]);
        WordStartsRun(s, 1, k);
        if k < |s| {
          assert s[k..][1..] == s[k + 1..];
        }
      }
    }
  }

  /** Replacing `''` by `’` creates no word start and removes none. */
  lemma {:induction false} ReplaceAllWordStarts(s: string, prevSpace: bool)
    ensures WordStarts(ReplaceAll(s, "''", "’"), prevSpace) == WordStarts(s, prevSpace)
    decreases |s|
  {
    if |s| >= 2 {
      var y := ReplaceAll(s[2..], "''", "’");
      if s[..2] == "''" {
        ReplaceAllWordStarts(s[2..], false);
        assert s[1..][1..] == s[2..];
        assert ("’" + y)[1..] == y;
      } else {
        ReplaceAllWordStarts(s[1..], IsSpace(s[0]));
      }
    }
  }

  lemma {:induction false} ReplaceDoubledCount(s: string)
    ensures |Split(ReplaceDoubled(s))| == |Split(s)|
  {
    SplitCount(s);
    SplitCount(ReplaceDoubled(s));
    ReplaceAllWordStarts(s, true);
  }

  // ---------------------------------------------------------------------------------------------
  // The post-fixed string

  /** The string branch of `post_fix_translated_content`: the result is its words joined by single
      blanks, so it has no leading, trailing or repeated whitespace; it holds no `''`; it has as many
      words as the original string; and each word is the word of the original (with `''` already
      turned into `’`) up to the case of its letters. */
  lemma {:induction false} PostFixStringSpec(s: string, vocab: set<string>, order: seq<string>)
    ensures var r, ws := PostFixStringWith(s, vocab, order), Split(ReplaceDoubled(s));
      && SingleSpaced(r)
      && !Contains(r, "''")
      && |Split(r)| == |ws| == |Split(s)|
      && forall i :: 0 <= i < |ws| ==> ToLower(Split(r)[i]) == ToLower(ws[i])
  {
    var s1 := ReplaceDoubled(s);
    var ws := Split(s1);
    var fixed := FixWords(ws, vocab, order);
    SplitGivesWords(s1);
    NoDoubledContains(s);
    if Contains(s, "''") {
      ReplaceAllNoDoubled(s);
    }
    SplitNoDoubled(s1);
    forall j | 0 <= j < |fixed| ensures IsWord(fixed[j]) && NoDoubled(fixed[j]) && ToLower(fixed[j]) == ToLower(ws[j]) {
      FixWordLower(ws[j], vocab, order);
      SameLower(fixed[j], ws[j]);
    }
    SplitJoin(fixed);
    JoinSingleSpaced(fixed);
    JoinNoDoubled(fixed);
    NoDoubledContains(Join(fixed, " "));
    ReplaceDoubledCount(s);
  }

  // ---------------------------------------------------------------------------------------------
  // The imperative form

  /** The string branch of `post_fix_translated_content`, overwriting the entries of the word list in
      place. */
  method PostFixText(s: string, vocab: set<string>, order: seq<string>) returns (r: string)
    ensures r == PostFixStringWith(s, vocab, order)
  {
    var t := if Contains(s, "''") then ReplaceAll(s, "''", "’") else s;
    var ws := Split(t);
    var words := new string[|ws|](i requires 0 <= i < |ws| => ws[i]);
    for i := 0 to words.Length
      invariant forall j :: 0 <= j < i ==> words[j] == FixWord(ws[j], vocab, order)
      invariant forall j :: i <= j < words.Length ==> words[j] == ws[j]
    {
      var w := words[i];
      var stripped := WordChars(w);
      var lw := ToLower(stripped);
      if lw in vocab {
        var k := 0;
        while k < |order|
          invariant 0 <= k <= |order|
          invariant FirstWithLower(order[k..], lw) == FirstWithLower(order, lw)
          invariant words[i] == w
        {
          assert order[k..][1..] == order[k + 1..];
          if ToLower(order[k]) == lw {
            words[i] := SubWord(w, stripped, order[k], 0);
            break;
          }
          k := k + 1;
        }
      }
    }
    r := Join(words[..], " ");
    assert words[..] == FixWords(ws, vocab, order);
  }
}
