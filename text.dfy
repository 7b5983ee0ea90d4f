/** Character classes and string operations of the Python runtime that the translator relies on:
    `str.isspace`, the regex classes `\w`, `\d` and `[A-Za-z0-9_]`, `str.lower`, `str.replace`,
    `str.split`, `str.join` and `str(n)` for natural numbers. */
module Text {

  /** Python's `str.isspace()`, which is also what the regex class `\s` matches: the complete list of
      whitespace code points. */
  predicate IsSpace(c: char) {
    || ('\t' <= c <= '\r')
    || ('\U{1C}' <= c <= ' ')
    || c == '\U{85}' || c == '\U{A0}' || c == '\U{1680}'
    || ('\U{2000}' <= c <= '\U{200A}')
    || c == '\U{2028}' || c == '\U{2029}' || c == '\U{202F}' || c == '\U{205F}' || c == '\U{3000}'
  }

  /** `\d`, restricted to ASCII. */
  predicate IsDigit(c: char) { '0' <= c <= '9' }

  predicate IsAsciiLetter(c: char) { 'A' <= c <= 'Z' || 'a' <= c <= 'z' }

  /** The class `[A-Za-z0-9_]`; it is also the model of `\w`, restricted to ASCII. */
  predicate IsWordChar(c: char) { IsAsciiLetter(c) || IsDigit(c) || c == '_' }

  /** `str.lower()` on one character, restricted to ASCII. */
  function LowerChar(c: char): char {
    if 'A' <= c <= 'Z' then (c as int + 32) as char else c
  }

  /** `str.lower()`, restricted to ASCII: every character lowered on its own. */
  function ToLower(s: string): string
    decreases |s|
  {
    if s == [] then [] else [LowerChar(s[0])] + ToLower(s[1..])
  }

  /** Lowering keeps the length and lowers each character in its place. */
  lemma {:induction false} ToLowerSpec(s: string)
    ensures |ToLower(s)| == |s| && forall i :: 0 <= i < |s| ==> ToLower(s)[i] == LowerChar(s[i])
    decreases |s|
  {
    if s != [] {
      ToLowerSpec(s[1..]);
    }
  }

  /** Lowering works character by character, so it distributes over concatenation. */
  lemma {:induction false} ToLowerConcat(a: string, b: string)
    ensures ToLower(a + b) == ToLower(a) + ToLower(b)
    decreases |a|
  {
    if a == [] {
      assert a + b == b;
    } else {
      assert (a + b)[0] == a[0] && (a + b)[1..] == a[1..] + b;
      ToLowerConcat(a[1..], b);
      AppendAssoc([LowerChar(a[0])], ToLower(a[1..]), ToLower(b));
    }
  }

  /** Every character of `s` satisfies `p`. */
  predicate All(s: string, p: char -> bool) {
    forall i :: 0 <= i < |s| ==> p(s[i])
  }

  /** The first index at or after `i` whose character does not satisfy `keep` (or `|w|`). */
  function SkipWhile(w: string, i: nat, keep: char -> bool): (j: nat)
    requires i <= |w|
    ensures i <= j <= |w|
    decreases |w| - i
  {
    if i == |w| || !keep(w[i]) then i else SkipWhile(w, i + 1, keep)
  }

  /** `SkipWhile` passes only characters that satisfy `keep` and stops at one that does not. */
  lemma {:induction false} SkipWhileSpec(w: string, i: nat, keep: char -> bool)
    requires i <= |w|
    ensures forall k :: i <= k < SkipWhile(w, i, keep) ==> keep(w[k])
    ensures SkipWhile(w, i, keep) < |w| ==> !keep(w[SkipWhile(w, i, keep)])
    decreases |w| - i
  {
    if i < |w| && keep(w[i]) {
      SkipWhileSpec(w, i + 1, keep);
    }
  }

  /** `SkipWhile` stops exactly at the first index that does not satisfy `keep`. */
  lemma {:induction false} SkipWhileExact(w: string, i: nat, keep: char -> bool, j: nat)
    requires i <= j <= |w|
    requires forall k :: i <= k < j ==> keep(w[k])
    requires j < |w| ==> !keep(w[j])
    ensures SkipWhile(w, i, keep) == j
    decreases j - i
  {
    if i < j {
      SkipWhileExact(w, i + 1, keep, j);
    }
  }

  /** A sequence is its prefix followed by the rest. */
  lemma {:induction false} SplitAt<T>(s: seq<T>, k: nat)
    requires k <= |s|
    ensures s == s[..k] + s[k..]
  {
  }

  lemma {:induction false} AppendAssoc<T>(a: seq<T>, b: seq<T>, c: seq<T>)
    ensures a + (b + c) == (a + b) + c
  {
  }

  /** The two halves of a concatenation, taken back apart. */
  lemma {:induction false} ConcatParts<T>(x: seq<T>, y: seq<T>)
    ensures (x + y)[..|x|] == x && (x + y)[|x|..] == y && (x + y)[0..|x|] == x && (x + y)[|x|..|x| + |y|] == y
  {
  }

  // ---------------------------------------------------------------------------------------------
  // str(n)

  function DigitChar(d: nat): char
    requires d < 10
  {
    ('0' as int + d) as char
  }

  /** `str(n)` for a natural number: its decimal digits, most significant first. */
  function Decimal(n: nat): string
    decreases n
  {
    if n < 10 then [DigitChar(n)] else Decimal(n / 10) + [DigitChar(n % 10)]
  }

  /** `str(n)` is a non-empty run of digits, a single one exactly for `n < 10`. */
  lemma {:induction false} DecimalSpec(n: nat)
    ensures |Decimal(n)| > 0
    ensures forall i :: 0 <= i < |Decimal(n)| ==> IsDigit(Decimal(n)[i])
    ensures n < 10 <==> |Decimal(n)| == 1
    decreases n
  {
    if n >= 10 {
      DecimalSpec(n / 10);
    }
  }

  /** Different numbers have different decimal representations. */
  lemma {:induction false} DecimalInjective(m: nat, n: nat)
    requires Decimal(m) == Decimal(n)
    ensures m == n
    decreases m
  {
    if m >= 10 && n >= 10 {
      var dm, dn := Decimal(m), Decimal(n);
      assert dm[..|dm| - 1] == Decimal(m / 10);
      assert dn[..|dn| - 1] == Decimal(n / 10);
      assert DigitChar(m % 10) == dm[|dm| - 1] == dn[|dn| - 1] == DigitChar(n % 10);
      DecimalInjective(m / 10, n / 10);
    }
  }

  // ---------------------------------------------------------------------------------------------
  // Substrings and str.replace

  predicate OccursAt(w: string, t: string, p: nat) {
    p + |t| <= |w| && w[p..p + |t|] == t
  }

  /** Python's `t in w`. */
  predicate Contains(w: string, t: string) {
    exists p: nat | p <= |w| :: OccursAt(w, t, p)
  }

  /** Python's `s.replace(t, r)`: scanning left to right, every occurrence of `t` that does not overlap
      an earlier replaced one is replaced by `r`; an empty `t` puts `r` around every character. */
  function ReplaceAll(s: string, t: string, r: string): string
    decreases |s|
  {
    if t == [] then (if s == [] then r else r + [s[0]] + ReplaceAll(s[1..], t, r))
    else if |s| < |t| then s
    else if s[..|t|] == t then r + ReplaceAll(s[|t|..], t, r)
    else [s[0]] + ReplaceAll(s[1..], t, r)
  }

  /** A prefix in which no occurrence of `t` starts is copied unchanged. */
  lemma {:induction false} ReplaceAllSkip(x: string, y: string, t: string, r: string)
    requires |t| > 0
    requires forall p: nat :: p < |x| ==> !OccursAt(x + y, t, p)
    ensures ReplaceAll(x + y, t, r) == x + ReplaceAll(y, t, r)
    decreases |x|, 1
  {
    if x == [] {
      assert x + y == y;
    } else if |x + y| < |t| {
      assert ReplaceAll(y, t, r) == y;
    } else {
      ReplaceAllSkipStep(x, y, t, r);
    }
  }

  /** The step of `ReplaceAllSkip`: the first character is copied, the rest is skipped recursively. */
  lemma {:induction false} ReplaceAllSkipStep(x: string, y: string, t: string, r: string)
    requires |t| > 0 && x != [] && |t| <= |x + y|
    requires forall p: nat :: p < |x| ==> !OccursAt(x + y, t, p)
    ensures ReplaceAll(x + y, t, r) == x + ReplaceAll(y, t, r)
    decreases |x|, 0
  {
    var v := x[1..] + y;
    assert x == [x[0]] + x[1..];
    AppendAssoc([x[0]], x[1..], y);
    assert !OccursAt(x + y, t, 0);
    ReplaceAllMiss(x[0], v, t, r);
    NoOccurrenceTail(x, y, t);
    ReplaceAllSkip(x[1..], y, t, r);
    AppendAssoc([x[0]], x[1..], ReplaceAll(y, t, r));
  }

  /** A character at which no occurrence of `t` starts is copied. */
  lemma {:induction false} ReplaceAllMiss(c: char, v: string, t: string, r: string)
    requires |t| > 0 && |t| <= 1 + |v| && !OccursAt([c] + v, t, 0)
    ensures ReplaceAll([c] + v, t, r) == [c] + ReplaceAll(v, t, r)
  {
    assert ([c] + v)[1..] == v;
  }

  lemma {:induction false} NoOccurrenceTail(x: string, y: string, t: string)
    requires |x| > 0
    requires forall p: nat :: p < |x| ==> !OccursAt(x + y, t, p)
    ensures forall p: nat :: p < |x[1..]| ==> !OccursAt(x[1..] + y, t, p)
  {
    var w, v := x + y, x[1..] + y;
    assert w[1..] == v;
    forall p: nat | p < |x[1..]|
      ensures !OccursAt(v, t, p)
    {
      assert !OccursAt(w, t, p + 1);
      if p + |t| <= |v| {
        assert v[p..p + |t|] == w[p + 1..p + 1 + |t|];
      }
    }
  }

  /** A string in which `t` does not occur is unchanged. */
  lemma {:induction false} ReplaceAllAbsent(x: string, t: string, r: string)
    requires |t| > 0
    requires forall p: nat :: !OccursAt(x, t, p)
    ensures ReplaceAll(x, t, r) == x
  {
    assert x + [] == x;
    ReplaceAllSkip(x, [], t, r);
  }

  /** An occurrence at the very start is replaced. */
  lemma {:induction false} ReplaceAllHit(t: string, y: string, r: string)
    requires |t| > 0
    ensures ReplaceAll(t + y, t, r) == r + ReplaceAll(y, t, r)
  {
    assert (t + y)[..|t|] == t;
    assert (t + y)[|t|..] == y;
  }

  // ---------------------------------------------------------------------------------------------
  // str.split() and str.join

  /** Length of the longest prefix of `s` without whitespace. */
  function NonSpaceRun(s: string): (k: nat)
    ensures k <= |s|
  {
    SkipWhile(s, 0, c => !IsSpace(c))
  }

  lemma {:induction false} NonSpaceRunSpec(s: string)
    ensures forall i :: 0 <= i < NonSpaceRun(s) ==> !IsSpace(s[i])
    ensures NonSpaceRun(s) < |s| ==> IsSpace(s[NonSpaceRun(s)])
  {
    SkipWhileSpec(s, 0, c => !IsSpace(c));
  }

  /** Python's `s.split()` with no argument: the maximal runs of non-whitespace characters. */
  function Split(s: string): seq<string>
    decreases |s|
  {
    if s == [] then []
    else if IsSpace(s[0]) then Split(s[1..])
    else
      var k := NonSpaceRun(s);
      [s[..k]] + Split(s[k..])
  }

  /** A word as `str.split()` produces it: non-empty and without whitespace. */
  predicate IsWord(w: string) {
    |w| > 0 && forall i :: 0 <= i < |w| ==> !IsSpace(w[i])
  }

  /** Python's `sep.join(ws)`. */
  function Join(ws: seq<string>, sep: string): string
    decreases |ws|
  {
    if ws == [] then []
    else if |ws| == 1 then ws[0]
    else ws[0] + sep + Join(ws[1..], sep)
  }

  /** Every whitespace character is a single blank between two non-blank characters: no leading,
      trailing or repeated whitespace. */
  predicate SingleSpaced(r: string) {
    forall i :: 0 <= i < |r| && IsSpace(r[i]) ==>
      r[i] == ' ' && 0 < i < |r| - 1 && !IsSpace(r[i - 1]) && !IsSpace(r[i + 1])
  }

  /** What `str.split()` returns is a list of words. */
  lemma {:induction false} SplitGivesWords(s: string)
    ensures forall j :: 0 <= j < |Split(s)| ==> IsWord(Split(s)[j])
    decreases |s|
  {
    if s != [] {
      if IsSpace(s[0]) {
        SplitGivesWords(s[1..]);
      } else {
        NonSpaceRunSpec(s);
        SplitGivesWords(s[NonSpaceRun(s)..]);
      }
    }
  }

  /** Splitting words joined by single blanks gives the words back. */
  lemma {:induction false} SplitJoin(ws: seq<string>)
    requires forall j :: 0 <= j < |ws| ==> IsWord(ws[j])
    ensures Split(Join(ws, " ")) == ws
    decreases |ws|
  {
    if |ws| == 1 {
      var w := ws[0];
      assert Join(ws, " ") == w;
      SkipWhileExact(w, 0, c => !IsSpace(c), |w|);
      assert w[..|w|] == w && w[|w|..] == [];
      assert Split(w) == [w] + Split([]);
    } else if |ws| > 1 {
      var w := ws[0];
      var rest := Join(ws[1..], " ");
      var s := w + " " + rest;
      assert NonSpaceRun(s) == |w| by {
        assert forall i :: 0 <= i < |w| ==> s[i] == w[i];
        assert s[|w|] == ' ';
        SkipWhileExact(s, 0, c => !IsSpace(c), |w|);
      }
      assert s[..|w|] == w;
      assert s[|w|..] == " " + rest;
      assert Split(s[|w|..]) == Split(rest) by {
        assert (" " + rest)[1..] == rest;
      }
      SplitJoin(ws[1..]);
    }
  }

  /** Words joined by single blanks are single-spaced. */
  lemma {:induction false} JoinSingleSpaced(ws: seq<string>)
    requires forall j :: 0 <= j < |ws| ==> IsWord(ws[j])
    ensures SingleSpaced(Join(ws, " "))
    ensures ws != [] ==> |Join(ws, " ")| > 0 && !IsSpace(Join(ws, " ")[0])
    decreases |ws|
  {
    if |ws| > 1 {
      JoinSingleSpaced(ws[1..]);
      var w, rest := ws[0], Join(ws[1..], " ");
      var r := w + " " + rest;
      forall i | 0 <= i < |r| && IsSpace(r[i])
        ensures r[i] == ' ' && 0 < i < |r| - 1 && !IsSpace(r[i - 1]) && !IsSpace(r[i + 1])
      {
        if i < |w| {
          assert false;
        } else if i == |w| {
          assert r[i - 1] == w[|w| - 1];
          assert r[i + 1] == rest[0];
        } else {
          assert r[i] == rest[i - |w| - 1];
          if i - |w| - 1 > 0 {
            assert r[i - 1] == rest[i - |w| - 2];
          }
          assert r[i + 1] == rest[i - |w|];
        }
      }
    }
  }
}
