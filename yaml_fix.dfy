/** `fix_yaml_content`: before a file that YAML cannot parse is loaded again, every `key: value` line
    whose value holds a character that YAML reads as syntax (`&`, `:`, `'`) gets that value quoted.
    Every other line is copied as it is. */
module YamlFix {
  import opened Text

  // ---------------------------------------------------------------------------------------------
  // Lines and their parts

  predicate NotNewline(c: char) { c != '\n' }

  predicate NotColon(c: char) { c != ':' }

  /** `content.splitlines()`, with `\n` as the only line break: no line for a final `\n`, and none at
      all for empty content. */
  function SplitLines(s: string): seq<string>
    decreases |s|
  {
    if s == [] then []
    else
      var k := SkipWhile(s, 0, NotNewline);
      if k == |s| then [s] else [s[..k]] + SplitLines(s[k + 1..])
  }

  /** `s.lstrip()`: the text after the leading whitespace. */
  function LStrip(s: string): string {
    s[SkipWhile(s, 0, IsSpace)..]
  }

  /** What `lstrip` removes is leading whitespace, and what it keeps does not start with any. */
  lemma {:induction false} LStripSpec(s: string)
    ensures |LStrip(s)| <= |s| && LStrip(s) == s[|s| - |LStrip(s)|..]
    ensures forall k :: 0 <= k < |s| - |LStrip(s)| ==> IsSpace(s[k])
    ensures LStrip(s) == [] || !IsSpace(LStrip(s)[0])
  {
    SkipWhileSpec(s, 0, IsSpace);
  }

  /** `s.rstrip()`: the text before the trailing whitespace. */
  function RStrip(s: string): (r: string)
    ensures |r| <= |s| && r == s[..|r|]
    ensures r == [] || !IsSpace(r[|r| - 1])
    decreases |s|
  {
    if s != [] && IsSpace(s[|s| - 1]) then RStrip(s[..|s| - 1]) else s
  }

  /** `line[: len(line) - len(stripped)]`: the leading whitespace. */
  function Indent(line: string): string {
    line[..|line| - |LStrip(line)|]
  }

  /** Where `stripped.split(":", 1)` splits: the first `:`. */
  function ColonAt(stripped: string): (i: nat)
    requires ':' in stripped
    ensures i < |stripped| && stripped[i] == ':' && ':' !in stripped[..i]
  {
    SkipWhileSpec(stripped, 0, NotColon);
    SkipWhile(stripped, 0, NotColon)
  }

  /** The key of `stripped.split(":", 1)`, right-stripped. */
  function KeyOf(stripped: string): string
    requires ':' in stripped
  {
    RStrip(stripped[..ColonAt(stripped)])
  }

  /** The value of `stripped.split(":", 1)`, left-stripped. */
  function ValueOf(stripped: string): string
    requires ':' in stripped
  {
    LStrip(stripped[ColonAt(stripped) + 1..])
  }

  // ---------------------------------------------------------------------------------------------
  // Quoting

  /** The quoted value: in single quotes with every `'` doubled when the value has a `'` and no `"`,
      in double quotes with `\` and `"` escaped by a backslash otherwise. */
  function Quote(val: string): string {
    if '\'' in val && '"' !in val then "'" + Doubled(val) + "'" else "\"" + Escaped(val) + "\""
  }

  /** The value with every `'` doubled. */
  function Doubled(val: string): string {
    ReplaceAll(val, "'", "''")
  }

  /** The value with every backslash and every `"` preceded by a backslash. */
  function Escaped(val: string): string {
    ReplaceAll(ReplaceAll(val, "\\", "\\\\"), "\"", "\\\"")
  }

  /** A `key: value` line outside a comment, once left-stripped. */
  predicate IsEntry(stripped: string) {
    !(|stripped| > 0 && stripped[0] == '#') && ':' in stripped
  }

  /** A value that is not empty, does not start with a quote or a block indicator (`|`, `>`), and
      holds `&`, `:` or `'`. */
  predicate IsUnsafe(val: string) {
    && val != [] && val[0] != '\'' && val[0] != '"' && val[0] != '|' && val[0] != '>'
    && ('&' in val || ':' in val || '\'' in val)
  }

  /** The lines that are rewritten with their value quoted. */
  predicate NeedsQuoting(line: string) {
    IsEntry(LStrip(line)) && IsUnsafe(ValueOf(LStrip(line)))
  }

  /** The new line: the indentation, the key, `: ` and the quoted value. */
  function Requoted(line: string): string
    requires NeedsQuoting(line)
  {
    var stripped := LStrip(line);
    Indent(line) + KeyOf(stripped) + ": " + Quote(ValueOf(stripped))
  }

  /** The body of the loop of `fix_yaml_content`: what `fixed_lines` receives for `line`. */
  function FixLine(line: string): string {
    if NeedsQuoting(line) then Requoted(line) else line
  }

  function FixLines(lines: seq<string>): (fixed: seq<string>)
    ensures |fixed| == |lines|
  {
    seq(|lines|, i requires 0 <= i < |lines| => FixLine(lines[i]))
  }

  lemma {:induction false} FixLinesSnoc(lines: seq<string>, line: string)
    ensures FixLines(lines + [line]) == FixLines(lines) + [FixLine(line)]
  {
    var a, b := FixLines(lines + [line]), FixLines(lines) + [FixLine(line)];
    assert |a| == |b|;
    forall j | 0 <= j < |a| ensures a[j] == b[j] {
      if j < |lines| {
        assert (lines + [line])[j] == lines[j];
      }
    }
  }

  /** `fix_yaml_content(content)`. */
  function FixYaml(content: string): string {
    Join(FixLines(SplitLines(content)), "\n")
  }

  /** `fix_yaml_content(content)`, appending to `fixed_lines` line by line. */
  method FixYamlContent(content: string) returns (r: string)
    ensures r == FixYaml(content)
  {
    var lines := SplitLines(content);
    var fixed: seq<string> := [];
    for i := 0 to |lines|
      invariant fixed == FixLines(lines[..i])
    {
      var line := lines[i];
      fixed := fixed + [FixLine(line)];
      assert lines[..i + 1] == lines[..i] + [line];
      FixLinesSnoc(lines[..i], line);
    }
    assert lines[..|lines|] == lines;
    r := Join(fixed, "\n");
  }

  // ---------------------------------------------------------------------------------------------
  // Reading a quoted value back, as YAML does (sections 7.3.1 and 7.3.2 of YAML 1.2)

  /** A single-quoted body: `''` stands for one `'`. */
  function UnquoteSingle(b: string): string
    decreases |b|
  {
    if b == [] then []
    else if |b| >= 2 && b[0] == '\'' && b[1] == '\'' then "'" + UnquoteSingle(b[2..])
    else [b[0]] + UnquoteSingle(b[1..])
  }

  /** A double-quoted body: a backslash stands for the character after it (the escapes `\\` and `\"`
      are the ones the quoting writes). */
  function UnquoteDouble(b: string): string
    decreases |b|
  {
    if b == [] then []
    else if |b| >= 2 && b[0] == '\\' then [b[1]] + UnquoteDouble(b[2..])
    else [b[0]] + UnquoteDouble(b[1..])
  }

  /** The value a quoted scalar stands for. */
  function Unquote(q: string): string {
    if |q| >= 2 && q[0] == '\'' && q[|q| - 1] == '\'' then UnquoteSingle(q[1..|q| - 1])
    else if |q| >= 2 && q[0] == '"' && q[|q| - 1] == '"' then UnquoteDouble(q[1..|q| - 1])
    else q
  }

  lemma {:induction false} UnquoteSingleDoubled(v: string)
    ensures UnquoteSingle(ReplaceAll(v, "'", "''")) == v
    decreases |v|
  {
    if v != [] {
      var rest := ReplaceAll(v[1..], "'", "''");
      UnquoteSingleDoubled(v[1..]);
      if v[0] == '\'' {
        assert v[..1] == "'";
        assert ReplaceAll(v, "'", "''") == "''" + rest;
        assert ("''" + rest)[2..] == rest;
      } else {
        assert v[..1] != "'";
        assert ReplaceAll(v, "'", "''") == [v[0]] + rest;
        assert ([v[0]] + rest)[1..] == rest;
      }
    }
  }

  /** One character as the double-quoted form writes it. */
  function EscapeChar(c: char): string {
    if c == '\\' then "\\\\" else if c == '"' then "\\\"" else [c]
  }

  function EscapeChars(v: string): string
    decreases |v|
  {
    if v == [] then [] else EscapeChar(v[0]) + EscapeChars(v[1..])
  }

  /** Replacing a single character, one character at a time. */
  lemma {:induction false} ReplaceCharHead(c: char, rest: string, a: char, r: string)
    ensures ReplaceAll([c] + rest, [a], r) == (if c == a then r else [c]) + ReplaceAll(rest, [a], r)
  {
    var s := [c] + rest;
    assert s[..1] == [c] && s[1..] == rest;
  }

  /** Replacing a single character splits over a concatenation. */
  lemma {:induction false} ReplaceCharConcat(x: string, y: string, a: char, r: string)
    ensures ReplaceAll(x + y, [a], r) == ReplaceAll(x, [a], r) + ReplaceAll(y, [a], r)
    decreases |x|
  {
    if x == [] {
      assert x + y == y;
    } else {
      var c, tail := x[0], x[1..];
      assert x == [c] + tail;
      assert x + y == [c] + (tail + y);
      ReplaceCharHead(c, tail + y, a, r);
      ReplaceCharHead(c, tail, a, r);
      ReplaceCharConcat(tail, y, a, r);
      AppendAssoc(if c == a then r else [c], ReplaceAll(tail, [a], r), ReplaceAll(y, [a], r));
    }
  }

  /** The two replacements of the double-quoted form, on one character. */
  lemma {:induction false} EscapeOne(c: char)
    ensures ReplaceAll(ReplaceAll([c], "\\", "\\\\"), "\"", "\\\"") == EscapeChar(c)
  {
    ReplaceCharHead(c, [], '\\', "\\\\");
    assert [c] + [] == [c];
    var head := if c == '\\' then "\\\\" else [c];
    assert ReplaceAll([c], "\\", "\\\\") == head;
    if c == '\\' {
      assert head == ['\\'] + ['\\'];
      ReplaceCharConcat(['\\'], ['\\'], '"', "\\\"");
      ReplaceCharHead('\\', [], '"', "\\\"");
    } else {
      ReplaceCharHead(c, [], '"', "\\\"");
    }
  }

  /** The two replacements of the double-quoted form escape character by character. */
  lemma {:induction false} EscapeByChars(v: string)
    ensures ReplaceAll(ReplaceAll(v, "\\", "\\\\"), "\"", "\\\"") == EscapeChars(v)
    decreases |v|
  {
    if v != [] {
      var c, tail := v[0], v[1..];
      assert v == [c] + tail;
      ReplaceCharHead(c, tail, '\\', "\\\\");
      ReplaceCharHead(c, [], '\\', "\\\\");
      assert [c] + [] == [c];
      ReplaceCharConcat(ReplaceAll([c], "\\", "\\\\"), ReplaceAll(tail, "\\", "\\\\"), '"', "\\\"");
      EscapeOne(c);
      EscapeByChars(tail);
    }
  }

  lemma {:induction false} UnquoteDoubleEscaped(v: string)
    ensures UnquoteDouble(EscapeChars(v)) == v
    decreases |v|
  {
    if v != [] {
      var rest := EscapeChars(v[1..]);
      UnquoteDoubleEscaped(v[1..]);
      var e := EscapeChar(v[0]) + rest;
      if v[0] == '\\' || v[0] == '"' {
        assert e[0] == '\\' && e[1] == v[0] && e[2..] == rest;
      } else {
        assert e[0] == v[0] && e[1..] == rest;
      }
    }
  }

  /** The quoted value opens with a quote. */
  lemma {:induction false} QuoteStarts(val: string)
    ensures |Quote(val)| >= 2 && (Quote(val)[0] == '\'' || Quote(val)[0] == '"')
  {
  }

  /** Unquoting the quoted value gives the value back. */
  lemma {:induction false} QuoteRoundTrip(val: string)
    ensures Unquote(Quote(val)) == val
  {
    var q := Quote(val);
    if '\'' in val && '"' !in val {
      var body := ReplaceAll(val, "'", "''");
      assert q[1..|q| - 1] == body;
      UnquoteSingleDoubled(val);
    } else {
      var body := ReplaceAll(ReplaceAll(val, "\\", "\\\\"), "\"", "\\\"");
      assert q[1..|q| - 1] == body;
      EscapeByChars(val);
      UnquoteDoubleEscaped(val);
    }
  }

  // ---------------------------------------------------------------------------------------------
  // A rewritten line reads back as the same key with the quoted value

  lemma {:induction false} SuffixConcat(x: string, y: string, k: nat)
    requires k <= |x|
    ensures (x + y)[k..] == x[k..] + y
  {
    assert |(x + y)[k..]| == |x[k..] + y|;
    forall i | 0 <= i < |x[k..] + y| ensures (x + y)[k..][i] == (x[k..] + y)[i] {
      if i < |x| - k {
        assert (x + y)[k..][i] == x[k + i];
      } else {
        assert (x + y)[k..][i] == y[i - (|x| - k)];
      }
    }
  }

  /** Whitespace in front of text that starts with something else is what `lstrip` removes. */
  lemma {:induction false} LStripAfter(sp: string, rest: string)
    requires forall i :: 0 <= i < |sp| ==> IsSpace(sp[i])
    requires rest == [] || !IsSpace(rest[0])
    ensures LStrip(sp + rest) == rest
  {
    var s := sp + rest;
    SkipWhileExact(s, 0, IsSpace, |sp|);
    assert s[|sp|..] == rest;
  }

  /** The parts of a line that needs quoting, as `fix_yaml_content` reads it. */
  lemma {:induction false} LineParts(line: string)
    requires IsEntry(LStrip(line))
    ensures line == Indent(line) + LStrip(line)
    ensures forall i :: 0 <= i < |Indent(line)| ==> IsSpace(Indent(line)[i])
    ensures forall i :: 0 <= i < |KeyOf(LStrip(line))| ==>
      KeyOf(LStrip(line))[i] == LStrip(line)[i] && KeyOf(LStrip(line))[i] != ':'
    ensures KeyOf(LStrip(line)) == [] || (!IsSpace(KeyOf(LStrip(line))[0]) && KeyOf(LStrip(line))[0] != '#')
    ensures RStrip(KeyOf(LStrip(line))) == KeyOf(LStrip(line))
  {
    var stripped := LStrip(line);
    var m := |line| - |stripped|;
    LStripSpec(line);
    assert Indent(line) == line[..m];
    assert stripped == line[m..];
    assert line == line[..m] + line[m..];
    forall k | 0 <= k < m ensures IsSpace(Indent(line)[k]) {
      assert Indent(line)[k] == line[k];
    }
    var i := ColonAt(stripped);
    var before := stripped[..i];
    var key := KeyOf(stripped);
    assert key == before[..|key|];
    forall k | 0 <= k < |key| ensures key[k] == stripped[k] && key[k] != ':' {
      assert key[k] == before[k];
    }
  }

  /** `key: q` splits at the colon after the key when the key has no colon. */
  lemma {:induction false} SplitAtKey(key: string, q: string)
    requires forall i :: 0 <= i < |key| ==> key[i] != ':'
    ensures var body := key + ": " + q;
      && ':' in body && ColonAt(body) == |key|
      && body[..|key|] == key && body[|key| + 1..] == [' '] + q
  {
    var kc := key + ": ";
    var body := kc + q;
    ConcatParts(kc, q);
    ConcatParts(key, ": ");
    assert body[|key|] == ':';
    assert body[..|key|] == key;
    assert ColonAt(body) == |key|;
    assert kc[|key| + 1..] == [' '];
    SuffixConcat(kc, q, |key| + 1);
  }

  /** Whitespace in front of the rest of a line is its indentation. */
  lemma {:induction false} StripIndent(indent: string, body: string)
    requires forall i :: 0 <= i < |indent| ==> IsSpace(indent[i])
    requires body == [] || !IsSpace(body[0])
    ensures LStrip(indent + body) == body && Indent(indent + body) == indent
  {
    LStripAfter(indent, body);
    ConcatParts(indent, body);
  }

  /** `key: q` reads back as that key and value. */
  lemma {:induction false} ReadEntry(key: string, q: string)
    requires forall i :: 0 <= i < |key| ==> key[i] != ':'
    requires key == [] || (!IsSpace(key[0]) && key[0] != '#')
    requires RStrip(key) == key
    requires q != [] && !IsSpace(q[0])
    ensures var body := key + ": " + q;
      && !IsSpace(body[0]) && IsEntry(body) && KeyOf(body) == key && ValueOf(body) == q
  {
    var body := key + ": " + q;
    assert body[0] == if key == [] then ':' else key[0];
    SplitAtKey(key, q);
    LStripAfter([' '], q);
  }

  /** A line's indentation and key followed by `: ` and a new value read back as the same
      indentation and key and the new value. */
  lemma {:induction false} Rekeyed(line: string, q: string)
    requires IsEntry(LStrip(line))
    requires q != [] && !IsSpace(q[0])
    ensures var l := Indent(line) + KeyOf(LStrip(line)) + ": " + q;
      && Indent(l) == Indent(line)
      && IsEntry(LStrip(l))
      && KeyOf(LStrip(l)) == KeyOf(LStrip(line))
      && ValueOf(LStrip(l)) == q
  {
    var indent, key := Indent(line), KeyOf(LStrip(line));
    var body := key + ": " + q;
    assert indent + key + ": " + q == indent + body by {
      AppendAssoc(indent, key, ": ");
      AppendAssoc(indent, key + ": ", q);
    }
    LineParts(line);
    ReadEntry(key, q);
    StripIndent(indent, body);
  }

  /** The rewritten line holds the same indentation and key, and the quoted value. */
  lemma {:induction false} FixLineRereads(line: string)
    requires NeedsQuoting(line)
    ensures var stripped' := LStrip(FixLine(line));
      && Indent(FixLine(line)) == Indent(line)
      && IsEntry(stripped')
      && KeyOf(stripped') == KeyOf(LStrip(line))
      && ValueOf(stripped') == Quote(ValueOf(LStrip(line)))
  {
    var val := ValueOf(LStrip(line));
    QuoteStarts(val);
    Rekeyed(line, Quote(val));
  }

  /** The value of the rewritten line unquotes to the value of the line. */
  lemma {:induction false} FixLineUnquotes(line: string)
    requires NeedsQuoting(line)
    ensures IsEntry(LStrip(FixLine(line)))
    ensures Unquote(ValueOf(LStrip(FixLine(line)))) == ValueOf(LStrip(line))
  {
    FixLineRereads(line);
    QuoteRoundTrip(ValueOf(LStrip(line)));
  }

  /** Fixing a line twice changes nothing more: a rewritten line has a quoted value and is kept. */
  lemma {:induction false} FixLineIdempotent(line: string)
    ensures FixLine(FixLine(line)) == FixLine(line)
  {
    if NeedsQuoting(line) {
      FixLineRereads(line);
      QuoteStarts(ValueOf(LStrip(line)));
    }
  }

  /** A line is changed exactly when it needs quoting; every other line (a comment, a line without
      `:`, an empty, quoted or block value, a value without `&`, `:` and `'`) is copied as it is. */
  lemma {:induction false} FixLineChanges(line: string)
    ensures FixLine(line) != line <==> NeedsQuoting(line)
  {
    if NeedsQuoting(line) {
      var val := ValueOf(LStrip(line));
      FixLineRereads(line);
      QuoteStarts(val);
      assert ValueOf(LStrip(FixLine(line)))[0] != val[0];
    }
  }

  // ---------------------------------------------------------------------------------------------
  // One output line per input line

  /** Every character of a replacement's result comes from the text or from the replacement. */
  lemma {:induction false} ReplaceAllChars(s: string, t: string, r: string, c: char)
    requires |t| > 0 && c in ReplaceAll(s, t, r)
    ensures c in s || c in r
    decreases |s|
  {
    if |s| >= |t| {
      if s[..|t|] == t {
        if c !in r {
          assert c in ReplaceAll(s[|t|..], t, r);
          ReplaceAllChars(s[|t|..], t, r, c);
          assert c in s[|t|..];
        }
      } else if c != s[0] {
        assert c in ReplaceAll(s[1..], t, r);
        ReplaceAllChars(s[1..], t, r, c);
        if c !in r {
          assert c in s[1..];
        }
      }
    }
  }

  lemma {:induction false} QuoteNoNewline(val: string)
    requires '\n' !in val
    ensures '\n' !in Quote(val)
  {
    if '\n' in ReplaceAll(val, "'", "''") {
      ReplaceAllChars(val, "'", "''", '\n');
    }
    var e := ReplaceAll(val, "\\", "\\\\");
    if '\n' in e {
      ReplaceAllChars(val, "\\", "\\\\", '\n');
    }
    if '\n' in ReplaceAll(e, "\"", "\\\"") {
      ReplaceAllChars(e, "\"", "\\\"", '\n');
    }
  }

  lemma {:induction false} NotInSlice(s: string, c: char, lo: nat, hi: nat)
    requires c !in s && lo <= hi <= |s|
    ensures c !in s[lo..hi] && c !in s[lo..] && c !in s[..hi]
  {
    assert s[lo..] == s[lo..|s|];
    assert s[..hi] == s[0..hi];
  }

  /** The indentation, the key and the value are pieces of the line. */
  lemma {:induction false} PartsWithout(line: string, c: char)
    requires c !in line && IsEntry(LStrip(line))
    ensures c !in Indent(line) && c !in KeyOf(LStrip(line)) && c !in ValueOf(LStrip(line))
  {
    var stripped := LStrip(line);
    NotInSlice(line, c, |line| - |stripped|, |line|);
    var i := ColonAt(stripped);
    NotInSlice(stripped, c, i + 1, i + 1);
    NotInSlice(stripped, c, 0, i);
    var key := KeyOf(stripped);
    NotInSlice(stripped[..i], c, 0, |key|);
    var rest := stripped[i + 1..];
    NotInSlice(rest, c, |rest| - |ValueOf(stripped)|, |rest|);
  }

  /** The rewritten line has no line break when its parts have none. */
  lemma {:induction false} RequotedWithout(indent: string, key: string, val: string)
    requires '\n' !in indent && '\n' !in key && '\n' !in val
    ensures '\n' !in indent + key + ": " + Quote(val)
  {
    QuoteNoNewline(val);
  }

  /** A fixed line has no line break when the line had none, and is empty only when the line was. */
  lemma {:induction false} FixLineShape(line: string)
    requires '\n' !in line
    ensures '\n' !in FixLine(line)
    ensures FixLine(line) == [] <==> line == []
  {
    if NeedsQuoting(line) {
      var stripped := LStrip(line);
      PartsWithout(line, '\n');
      RequotedWithout(Indent(line), KeyOf(stripped), ValueOf(stripped));
    }
  }

  lemma {:induction false} SplitLinesNoNewline(s: string)
    ensures forall j :: 0 <= j < |SplitLines(s)| ==> '\n' !in SplitLines(s)[j]
    decreases |s|
  {
    if s != [] {
      var k := SkipWhile(s, 0, NotNewline);
      SkipWhileSpec(s, 0, NotNewline);
      assert forall c :: c in s[..k] ==> NotNewline(c);
      if k < |s| {
        SplitLinesNoNewline(s[k + 1..]);
      }
    }
  }

  /** Lines without breaks, joined by `\n`, are split back into the same lines, unless the last one
      is empty (`"\n".join` leaves no trace of a final empty line). */
  lemma {:induction false} SplitLinesJoin(ls: seq<string>)
    requires forall j :: 0 <= j < |ls| ==> '\n' !in ls[j]
    requires ls != [] ==> ls[|ls| - 1] != []
    ensures SplitLines(Join(ls, "\n")) == ls
    decreases |ls|
  {
    if |ls| == 1 {
      var w := ls[0];
      SkipWhileExact(w, 0, NotNewline, |w|);
    } else if |ls| > 1 {
      var w, rest := ls[0], Join(ls[1..], "\n");
      SplitLinesJoin(ls[1..]);
      var s := w + ("\n" + rest);
      assert Join(ls, "\n") == s;
      ConcatParts(w, "\n" + rest);
      SkipWhileExact(s, 0, NotNewline, |w|);
      assert s[|w| + 1..] == rest;
      assert rest != [] by {
        JoinNonEmpty(ls[1..]);
      }
    }
  }

  lemma {:induction false} JoinNonEmpty(ls: seq<string>)
    requires ls != [] && ls[|ls| - 1] != []
    ensures Join(ls, "\n") != []
    decreases |ls|
  {
    if |ls| > 1 {
      JoinNonEmpty(ls[1..]);
    }
  }

  /** `fix_yaml_content` gives one line for every line of its input, each line fixed on its own,
      provided the input does not end in an empty line. */
  lemma {:induction false} FixYamlLines(content: string)
    requires SplitLines(content) != [] ==> SplitLines(content)[|SplitLines(content)| - 1] != []
    ensures SplitLines(FixYaml(content)) == FixLines(SplitLines(content))
  {
    var lines := SplitLines(content);
    var fixed := FixLines(lines);
    SplitLinesNoNewline(content);
    forall j | 0 <= j < |lines| ensures '\n' !in fixed[j] && (fixed[j] == [] <==> lines[j] == []) {
      FixLineShape(lines[j]);
    }
    SplitLinesJoin(fixed);
  }
}
