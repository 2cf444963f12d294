/**
 * The math span scanner of readme2tex (`extract_equations` in render.py).
 *
 * A cursor walks the document. At each step the leftmost opener at or after
 * the cursor is either a fenced-code opener (three or more backticks, blanks,
 * an optional language tag, blanks) or `\begin{env}`. The first closer after
 * the opener ends the block: the same run of backticks for a fence, the
 * literal `\end{env}` for an environment. A fence tagged `tex` yields its
 * inner text, an environment yields its whole delimited text, any other fence
 * yields nothing; the cursor then moves past the closer. An opener without a
 * closer is fatal.
 *
 * Offsets are absolute positions in the document; the Python code searches
 * the slice `content[contentInd:]` and adds `contentInd` back, which is the
 * same thing.
 */
module Scanner {
  import opened Wrappers

  /** One math span: the text handed to the typesetter, the half-open range
      [start, end) of the document that it replaces, and whether it is
      display math. */
  datatype Span = Span(expression: string, start: nat, end: nat, isBlock: bool)

  /** A match of the opening regular expression. [start, end) is the text the
      match consumed. A fence records the length of its backtick run and its
      optional language tag; an environment records its name. */
  datatype Opener =
    | Fence(start: nat, end: nat, ticks: nat, lang: Option<string>)
    | Begin(start: nat, end: nat, env: string)

  /** The `ValueError` raised for an opener that is never closed. */
  datatype ScanError = MissingCloser(opener: Opener)

  predicate IsBacktick(c: char) { c == '`' }

  /** The class `[ \t]`. */
  predicate IsBlank(c: char) { c == ' ' || c == '\t' }

  /** The class `\w`, restricted to ASCII. */
  predicate IsWordChar(c: char) {
    ('a' <= c <= 'z') || ('A' <= c <= 'Z') || ('0' <= c <= '9') || c == '_'
  }

  /** The class `[\w*]` of environment names. */
  predicate IsEnvChar(c: char) { IsWordChar(c) || c == '*' }

  /** The character classes the opening expression uses. */
  datatype CharClass = Backticks | Blanks | Word | EnvName

  predicate InClass(c: char, k: CharClass) {
    match k
    case Backticks => IsBacktick(c)
    case Blanks => IsBlank(c)
    case Word => IsWordChar(c)
    case EnvName => IsEnvChar(c)
  }

  /** Length of the longest run of characters of class `k` that starts at
      `i`: what a greedy `k*` consumes there. */
  function Run(s: string, i: nat, k: CharClass): (n: nat)
    requires i <= |s|
    ensures i + n <= |s|
    decreases |s| - i
  {
    if i < |s| && InClass(s[i], k) then 1 + Run(s, i + 1, k) else 0
  }

  /** The run is exactly the longest one: every character in it is of the
      class and the next one, if any, is not. */
  lemma {:induction false} RunIsLongest(s: string, i: nat, k: CharClass)
    requires i <= |s|
    ensures forall j :: i <= j < i + Run(s, i, k) ==> InClass(s[j], k)
    ensures i + Run(s, i, k) == |s| || !InClass(s[i + Run(s, i, k)], k)
    decreases |s| - i
  {
    if i < |s| && InClass(s[i], k) {
      RunIsLongest(s, i + 1, k);
    }
  }

  /** The literal `\begin{` starts at `p`. */
  predicate BeginTagAt(s: string, p: nat) {
    && p + 7 <= |s|
    && s[p] == '\\' && s[p + 1] == 'b' && s[p + 2] == 'e' && s[p + 3] == 'g'
    && s[p + 4] == 'i' && s[p + 5] == 'n' && s[p + 6] == '{'
  }

  /** The closing text of an environment: `\end{env}`. */
  function EndTag(env: string): string { "\\end{" + env + "}" }

  /** A run of `k` backticks. */
  function Ticks(k: nat): (t: string)
    ensures |t| == k
  {
    seq(k, _ => '`')
  }

  /** The match of the fence alternative `([`]{3,})[ \t]*(\w+)?[ \t]*` at
      `p`: the greedy run of backticks (at least three), blanks, the longest
      word as the language tag (absent when empty), blanks. */
  function FenceAt(s: string, p: nat): (r: Option<Opener>)
    requires p <= |s|
    ensures r.Some? ==> r.value.Fence? && r.value.start == p && p + r.value.ticks <= r.value.end <= |s|
  {
    var ticks := Run(s, p, Backticks);
    if ticks < 3 then None
    else
      var langStart := p + ticks + Run(s, p + ticks, Blanks);
      var langEnd := langStart + Run(s, langStart, Word);
      var end := langEnd + Run(s, langEnd, Blanks);
      Some(Fence(p, end, ticks, if langStart < langEnd then Some(s[langStart..langEnd]) else None))
  }

  /** The match of the environment alternative `\\begin\{([\w*]+)\}` at `p`:
      the greedy `[\w*]+` must be followed by `}`. */
  function BeginAt(s: string, p: nat): (r: Option<Opener>)
    requires p <= |s|
    ensures r.Some? ==> r.value.Begin? && r.value.start == p && p < r.value.end <= |s|
  {
    if BeginTagAt(s, p) then
      var nameStart := p + 7;
      var nameEnd := nameStart + Run(s, nameStart, EnvName);
      if nameStart < nameEnd && nameEnd < |s| && s[nameEnd] == '}' then
        Some(Begin(p, nameEnd + 1, s[nameStart..nameEnd]))
      else None
    else None
  }

  /** The match of `([`]{3,})[ \t]*(\w+)?[ \t]*|\\begin\{([\w*]+)\}` at
      position `p`, if there is one. The two alternatives begin with
      different characters, so at most one of them applies. */
  function OpenerAt(s: string, p: nat): (r: Option<Opener>)
    requires p <= |s|
    ensures r.Some? ==> r.value.start == p && r.value.start < r.value.end <= |s|
    ensures r.Some? && r.value.Fence? ==> p + r.value.ticks <= r.value.end
  {
    if p < |s| && s[p] == '`' then FenceAt(s, p) else BeginAt(s, p)
  }

  /** [i, j) is the longest run of class `k` that starts at `i`. */
  ghost predicate Longest(s: string, i: nat, j: nat, k: CharClass) {
    && i <= j <= |s|
    && (forall m :: i <= m < j ==> InClass(s[m], k))
    && (j == |s| || !InClass(s[j], k))
  }

  /** Three backticks start at `p`: the fence alternative matches there. */
  predicate FenceOpens(s: string, p: nat) {
    p + 3 <= |s| && s[p] == '`' && s[p + 1] == '`' && s[p + 2] == '`'
  }

  /** `\begin{`, a non-empty name of `[\w*]` characters and `}` start at `p`:
      the environment alternative matches there. */
  ghost predicate EnvOpens(s: string, p: nat) {
    BeginTagAt(s, p) && exists n: nat :: Longest(s, p + 7, n, EnvName) && p + 7 < n < |s| && s[n] == '}'
  }

  /** What a fence match consumed: the whole backtick run (at least three),
      the blanks after it, then either nothing more (no language tag) or the
      longest word as the tag followed by its blanks. */
  ghost predicate FenceShape(s: string, o: Opener) {
    && o.Fence? && o.ticks >= 3
    && Longest(s, o.start, o.start + o.ticks, Backticks)
    && exists a :: Longest(s, o.start + o.ticks, a, Blanks) && LangShape(s, a, o)
  }

  ghost predicate LangShape(s: string, a: nat, o: Opener)
    requires o.Fence?
  {
    match o.lang
    case None => o.end == a && (a >= |s| || !IsWordChar(s[a]))
    case Some(w) =>
      && |w| > 0 && Longest(s, a, a + |w|, Word) && s[a..a + |w|] == w
      && Longest(s, a + |w|, o.end, Blanks)
  }

  /** What an environment match consumed: `\begin{`, the name, `}`. */
  ghost predicate EnvShape(s: string, o: Opener) {
    && o.Begin? && o.start + 8 < o.end <= |s|
    && BeginTagAt(s, o.start)
    && Longest(s, o.start + 7, o.end - 1, EnvName) && s[o.end - 1] == '}'
    && o.env == s[o.start + 7..o.end - 1]
  }

  lemma LongestRun(s: string, i: nat, k: CharClass)
    requires i <= |s|
    ensures Longest(s, i, i + Run(s, i, k), k)
  {
    RunIsLongest(s, i, k);
  }

  lemma LongestUnique(s: string, i: nat, j: nat, j': nat, k: CharClass)
    requires Longest(s, i, j, k) && Longest(s, i, j', k)
    ensures j == j'
  {
  }

  /** The opener found at `p` is a fence exactly when three backticks start
      there and an environment exactly when `\begin{name}` does, and it
      consumes exactly what the regular expression's greedy parts take. */
  lemma OpenerMatches(s: string, p: nat)
    requires p <= |s|
    ensures OpenerAt(s, p).Some? && OpenerAt(s, p).value.Fence? <==> FenceOpens(s, p)
    ensures OpenerAt(s, p).Some? && OpenerAt(s, p).value.Begin? <==> EnvOpens(s, p)
    ensures FenceOpens(s, p) ==> FenceShape(s, OpenerAt(s, p).value)
    ensures EnvOpens(s, p) ==> EnvShape(s, OpenerAt(s, p).value)
  {
    if p < |s| && s[p] == '`' {
      FenceMatches(s, p);
      assert !BeginTagAt(s, p);
    } else {
      EnvMatches(s, p);
    }
  }

  lemma FenceMatches(s: string, p: nat)
    requires p < |s| && s[p] == '`'
    ensures FenceAt(s, p).Some? <==> FenceOpens(s, p)
    ensures FenceOpens(s, p) ==> FenceShape(s, FenceAt(s, p).value)
  {
    TicksAtLeastThree(s, p);
    if FenceOpens(s, p) {
      FenceTail(s, p, Run(s, p, Backticks));
    }
  }

  /** The backtick run at `p` has at least three characters exactly when
      three backticks start there. */
  lemma TicksAtLeastThree(s: string, p: nat)
    requires p <= |s|
    ensures Run(s, p, Backticks) >= 3 <==> FenceOpens(s, p)
  {
    RunIsLongest(s, p, Backticks);
    if FenceOpens(s, p) {
      assert Run(s, p + 2, Backticks) >= 1;
      assert Run(s, p + 1, Backticks) >= 2;
    }
  }

  lemma FenceTail(s: string, p: nat, ticks: nat)
    requires p <= |s| && ticks == Run(s, p, Backticks) && ticks >= 3
    ensures FenceAt(s, p).Some? && FenceShape(s, FenceAt(s, p).value)
  {
    var a := p + ticks + Run(s, p + ticks, Blanks);
    var b := a + Run(s, a, Word);
    var e := b + Run(s, b, Blanks);
    var o := Fence(p, e, ticks, if a < b then Some(s[a..b]) else None);
    assert FenceAt(s, p) == Some(o);
    FenceParts(s, p, ticks, a, b, o);
  }

  lemma FenceParts(s: string, p: nat, ticks: nat, a: nat, b: nat, o: Opener)
    requires p <= |s| && ticks == Run(s, p, Backticks) && ticks >= 3
    requires a == p + ticks + Run(s, p + ticks, Blanks) && b == a + Run(s, a, Word)
    requires o == Fence(p, b + Run(s, b, Blanks), ticks, if a < b then Some(s[a..b]) else None)
    ensures FenceShape(s, o)
  {
    LongestRun(s, p, Backticks);
    LongestRun(s, p + ticks, Blanks);
    LongestRun(s, a, Word);
    LongestRun(s, b, Blanks);
    LangFits(s, a, b, o);
    FenceShapeAt(s, o, a);
  }

  lemma FenceShapeAt(s: string, o: Opener, a: nat)
    requires o.Fence? && o.ticks >= 3 && Longest(s, o.start, o.start + o.ticks, Backticks)
    requires Longest(s, o.start + o.ticks, a, Blanks) && LangShape(s, a, o)
    ensures FenceShape(s, o)
  {
  }

  /** The tag part of a fence match: no tag when the word run is empty (and
      then the trailing blanks are empty too, since `a` ends a blank run). */
  lemma LangFits(s: string, a: nat, b: nat, o: Opener)
    requires Longest(s, a, b, Word) && Longest(s, b, o.end, Blanks)
    requires o.Fence? && o.lang == (if a < b then Some(s[a..b]) else None)
    requires a == |s| || !IsBlank(s[a])
    ensures LangShape(s, a, o)
  {
    if a == b {
      assert o.end == a;
    } else {
      assert |s[a..b]| == b - a;
    }
  }

  lemma EnvMatches(s: string, p: nat)
    requires p <= |s|
    ensures BeginAt(s, p).Some? <==> EnvOpens(s, p)
    ensures EnvOpens(s, p) ==> EnvShape(s, BeginAt(s, p).value)
  {
    if BeginTagAt(s, p) {
      var nameEnd := p + 7 + Run(s, p + 7, EnvName);
      LongestRun(s, p + 7, EnvName);
      if EnvOpens(s, p) {
        var n: nat :| Longest(s, p + 7, n, EnvName) && p + 7 < n < |s| && s[n] == '}';
        LongestUnique(s, p + 7, n, nameEnd, EnvName);
      }
    }
  }

  /** `pat` occurs in `s` at position `q`. */
  predicate OccursAt(s: string, pat: string, q: nat) {
    q + |pat| <= |s| && s[q..q + |pat|] == pat
  }

  /** `re.search` of a literal pattern from `from`: the leftmost occurrence. */
  function Find(s: string, pat: string, from: nat): (r: Option<nat>)
    requires from <= |s|
    ensures r.Some? ==> from <= r.value && r.value + |pat| <= |s|
    decreases |s| - from
  {
    if OccursAt(s, pat, from) then Some(from)
    else if from + |pat| >= |s| then None
    else Find(s, pat, from + 1)
  }

  /** The search finds the first occurrence at or after `from`, and finds
      nothing only when there is none. */
  lemma {:induction false} FindIsLeftmost(s: string, pat: string, from: nat)
    requires from <= |s|
    ensures Find(s, pat, from).Some? ==> OccursAt(s, pat, Find(s, pat, from).value)
    ensures Find(s, pat, from).Some? ==> forall q :: from <= q < Find(s, pat, from).value ==> !OccursAt(s, pat, q)
    ensures Find(s, pat, from).None? ==> forall q :: from <= q ==> !OccursAt(s, pat, q)
    decreases |s| - from
  {
    if !OccursAt(s, pat, from) && from + |pat| < |s| {
      FindIsLeftmost(s, pat, from + 1);
    }
  }

  /** The text that closes the block an opener starts. */
  function Closer(o: Opener): string {
    match o
    case Fence(_, _, ticks, _) => Ticks(ticks)
    case Begin(_, _, env) => EndTag(env)
  }

  /** `re.escape` of an environment name: of the characters in `[\w*]`,
      only `*` is special. */
  function Escaped(env: string): string {
    if env == [] then [] else EscapedChar(env[0]) + Escaped(env[1..])
  }

  function EscapedChar(c: char): string {
    if c == '*' then "\\*" else [c]
  }

  /** The source text of the closing regular expression. */
  function EndPattern(o: Opener): string {
    match o
    case Fence(_, _, ticks, _) => Ticks(ticks)
    case Begin(_, _, env) => "\\\\end\\{" + Escaped(env) + "\\}"
  }

  /** The text of the raised `ValueError`. */
  function Message(e: ScanError): string {
    MessagePrefix + EndPattern(e.opener) + "\""
  }

  const MessagePrefix := "cannot find ending match for pattern: \""

  /** The literal text a pattern made of plain characters and `\`-escapes
      matches: each `\` stands for the character after it. */
  function Unescaped(p: string): string {
    if p == [] then []
    else if p[0] == '\\' && |p| >= 2 then [p[1]] + Unescaped(p[2..])
    else [p[0]] + Unescaped(p[1..])
  }

  /** A pattern without backslashes matches itself. */
  lemma {:induction false} UnescapedPlain(p: string)
    requires forall i | 0 <= i < |p| :: p[i] != '\\'
    ensures Unescaped(p) == p
  {
    if p != [] {
      UnescapedPlain(p[1..]);
    }
  }

  /** A plain character of a pattern matches itself. */
  lemma UnescapedLiteral(c: char, rest: string)
    requires c != '\\'
    ensures Unescaped([c] + rest) == [c] + Unescaped(rest)
  {
    assert ([c] + rest)[1..] == rest;
  }

  /** An escaped character matches that character. */
  lemma UnescapedEscape(c: char, rest: string)
    ensures Unescaped(['\\', c] + rest) == [c] + Unescaped(rest)
  {
    assert (['\\', c] + rest)[2..] == rest;
  }

  /** `re.escape` of an environment name followed by more pattern matches
      the name itself, then what the rest matches. */
  lemma {:induction false} EscapedRoundTrip(env: string, tail: string)
    requires forall i | 0 <= i < |env| :: IsEnvChar(env[i])
    ensures Unescaped(Escaped(env) + tail) == env + Unescaped(tail)
  {
    if env == [] {
      assert Escaped(env) + tail == tail;
    } else {
      EscapedRoundTrip(env[1..], tail);
      EscapedStep(env, tail);
    }
  }

  /** The inductive step of `EscapedRoundTrip`: the escape of the first
      character matches that character. */
  lemma EscapedStep(env: string, tail: string)
    requires env != [] && IsEnvChar(env[0])
    requires Unescaped(Escaped(env[1..]) + tail) == env[1..] + Unescaped(tail)
    ensures Unescaped(Escaped(env) + tail) == env + Unescaped(tail)
  {
    var rest := Escaped(env[1..]) + tail;
    EscapedCons(env, tail);
    EscapedCharRoundTrip(env[0], rest);
    ConsAppend(env, Unescaped(tail));
  }

  /** Escaping works character by character. */
  lemma EscapedCons(env: string, tail: string)
    requires env != []
    ensures Escaped(env) + tail == EscapedChar(env[0]) + (Escaped(env[1..]) + tail)
  {
  }

  /** A non-empty string is its head followed by its rest. */
  lemma ConsAppend(s: string, t: string)
    requires s != []
    ensures [s[0]] + (s[1..] + t) == s + t
  {
    assert s == [s[0]] + s[1..];
  }

  /** One escaped name character matches that character. */
  lemma EscapedCharRoundTrip(c: char, rest: string)
    requires IsEnvChar(c)
    ensures Unescaped(EscapedChar(c) + rest) == [c] + Unescaped(rest)
  {
    if c == '*' {
      assert EscapedChar(c) + rest == ['\\', '*'] + rest;
      UnescapedEscape('*', rest);
    } else {
      UnescapedLiteral(c, rest);
    }
  }

  /** A name without `*` is its own escape. */
  lemma {:induction false} EscapedWithoutStar(env: string)
    requires forall i | 0 <= i < |env| :: env[i] != '*'
    ensures Escaped(env) == env
  {
    if env != [] {
      EscapedWithoutStar(env[1..]);
    }
  }

  /** The fixed head `\\end\{` of an environment's closing pattern matches
      `\end{`. */
  lemma UnescapedEndHead(x: string)
    ensures Unescaped("\\\\end\\{" + x) == "\\end{" + Unescaped(x)
  {
    var y := ['\\', '{'] + x;
    var d := ['d'] + y;
    var n := ['n'] + d;
    var e := ['e'] + n;
    UnescapedEscape('{', x);
    UnescapedLiteral('d', y);
    UnescapedLiteral('n', d);
    UnescapedLiteral('e', n);
    UnescapedEscape('\\', e);
    EndHeads(x, Unescaped(x));
  }

  /** The heads of the closing pattern and of the closer, one character at
      a time. */
  lemma EndHeads(x: string, u: string)
    ensures "\\\\end\\{" + x == ['\\', '\\'] + (['e'] + (['n'] + (['d'] + (['\\', '{'] + x))))
    ensures "\\end{" + u == ['\\'] + (['e'] + (['n'] + (['d'] + (['{'] + u))))
  {
  }

  /** The pattern quoted in the error message matches exactly the closer
      the scanner looked for: the backtick string, or `\end{env}`. */
  lemma PatternIsCloser(o: Opener)
    requires o.Begin? ==> forall i | 0 <= i < |o.env| :: IsEnvChar(o.env[i])
    ensures Unescaped(EndPattern(o)) == Closer(o)
  {
    match o
    case Fence(_, _, ticks, _) =>
      UnescapedPlain(Ticks(ticks));
    case Begin(_, _, env) =>
      var close := "\\}";
      EscapedRoundTrip(env, close);
      UnescapedEscape('}', []);
      assert close == ['\\', '}'] + [];
      UnescapedEndHead(Escaped(env) + close);
      assert EndPattern(o) == "\\\\end\\{" + (Escaped(env) + close);
  }

  /** The `ValueError` quotes, after its fixed prefix, a pattern that matches
      exactly the missing closer. */
  lemma MessageQuotesCloser(e: ScanError)
    requires e.opener.Begin? ==> forall i | 0 <= i < |e.opener.env| :: IsEnvChar(e.opener.env[i])
    ensures |Message(e)| > |MessagePrefix|
    ensures Message(e)[..|MessagePrefix|] == MessagePrefix
    ensures Message(e)[|Message(e)| - 1] == '"'
    ensures Unescaped(Message(e)[|MessagePrefix|..|Message(e)| - 1]) == Closer(e.opener)
  {
    var m := Message(e);
    PatternIsCloser(e.opener);
    assert m[|MessagePrefix|..|m| - 1] == EndPattern(e.opener);
  }

  /** A block as the scanner meets it: its opener and where the first
      closer after the opener starts, if there is one. */
  datatype Block = Block(opener: Opener, closer: Option<nat>)

  /** The block that starts at `p`, if an opener matches there. */
  function BlockAt(s: string, p: nat): (r: Option<Block>)
    requires p <= |s|
    ensures r.Some? ==> Placed(r.value, p, |s|)
  {
    match OpenerAt(s, p)
    case None => None
    case Some(o) => Some(Block(o, Find(s, Closer(o), o.end)))
  }

  /** Block `b` starts at `p` and, with its closer, lies inside a text of
      length `n`. */
  predicate Placed(b: Block, p: nat, n: nat) {
    && b.opener.start == p && b.opener.start < b.opener.end <= n
    && (b.opener.Fence? ==> p + b.opener.ticks <= b.opener.end)
    && (b.closer.Some? ==> b.opener.end <= b.closer.value && b.closer.value + |Closer(b.opener)| <= n)
  }

  /** The blocks of `s`, one entry per position: what the opening and closing
      searches find when the opener matches at that position. */
  function Blocks(s: string): (t: seq<Option<Block>>)
    ensures |t| == |s| + 1
  {
    seq(|s| + 1, p requires 0 <= p <= |s| => BlockAt(s, p))
  }

  /** `t` has one entry per position of a text of length `n`, and each
      entry is placed at its own position. */
  predicate Lexed(n: nat, t: seq<Option<Block>>) {
    && |t| == n + 1
    && forall p :: 0 <= p < |t| && t[p].Some? ==> Placed(t[p].value, p, n)
  }

  lemma BlocksLexed(s: string)
    ensures Lexed(|s|, Blocks(s))
  {
    var t := Blocks(s);
    forall p | 0 <= p < |t| && t[p].Some?
      ensures Placed(t[p].value, p, |s|)
    {
      assert t[p] == BlockAt(s, p);
    }
  }

  /** The closer recorded for the block at `p` is the result of the closing
      search that starts after its opener. */
  lemma BlockCloser(s: string, p: nat)
    requires p <= |s| && Blocks(s)[p].Some?
    ensures Blocks(s)[p].value.closer == Find(s, Closer(Blocks(s)[p].value.opener), Blocks(s)[p].value.opener.end)
  {
    assert Blocks(s)[p] == BlockAt(s, p);
  }

  /** `re.search` of the opening expression from `from`: the leftmost
      position at or after `from` where a block starts. */
  function FindOpener(t: seq<Option<Block>>, from: nat): (r: Option<nat>)
    requires from <= |t|
    ensures r.Some? ==> from <= r.value < |t| && t[r.value].Some?
    decreases |t| - from
  {
    if from == |t| then None
    else if t[from].Some? then Some(from)
    else FindOpener(t, from + 1)
  }

  /** No opener is skipped: the search stops at the first position that has
      one, and finds nothing only when no later position has one. */
  lemma {:induction false} FindOpenerIsLeftmost(t: seq<Option<Block>>, from: nat)
    requires from <= |t|
    ensures FindOpener(t, from).Some? ==> forall p :: from <= p < FindOpener(t, from).value ==> t[p].None?
    ensures FindOpener(t, from).None? ==> forall p :: from <= p < |t| ==> t[p].None?
    decreases |t| - from
  {
    if from < |t| && t[from].None? {
      FindOpenerIsLeftmost(t, from + 1);
    }
  }

  /** Whether a block yields a span: every environment does, a fence only
      when tagged `tex`. */
  predicate Emits(o: Opener) {
    o.Begin? || o.lang == Some("tex")
  }

  /** The span yielded for opener `o` closed at `at`. */
  function SpanOf(s: string, o: Opener, at: nat): Span
    requires o.start <= o.end <= at && at + |Closer(o)| <= |s|
  {
    match o
    case Fence(start, end, ticks, _) => Span(s[end..at], start, at + ticks, true)
    case Begin(start, _, env) =>
      Span(s[start..at + |Closer(o)|], start, at + |Closer(o)|, env != "math")
  }

  function Cons(sp: Span, r: Result<seq<Span>, ScanError>): Result<seq<Span>, ScanError> {
    match r
    case Ok(v) => Ok([sp] + v)
    case Err(e) => Err(e)
  }

  /** What the generator yields from cursor position `cursor` on, or the
      error it raises, given the blocks `t` of `s`. */
  function ScanFrom(s: string, t: seq<Option<Block>>, cursor: nat): Result<seq<Span>, ScanError>
    requires Lexed(|s|, t) && cursor <= |s|
    decreases |s| - cursor
  {
    if cursor >= |s| - 1 then Ok([])
    else
      match FindOpener(t, cursor)
      case None => Ok([])
      case Some(p) =>
        var o := t[p].value.opener;
        match t[p].value.closer
        case None => Err(MissingCloser(o))
        case Some(at) =>
          var rest := ScanFrom(s, t, at + |Closer(o)|);
          if Emits(o) then Cons(SpanOf(s, o, at), rest) else rest
  }

  /** `list(extract_equations(content))`. */
  function Scan(s: string): Result<seq<Span>, ScanError> {
    BlocksLexed(s);
    ScanFrom(s, Blocks(s), 0)
  }

  /** Spans are non-empty, in increasing order and do not overlap. */
  predicate Ordered(v: seq<Span>) {
    && (forall i :: 0 <= i < |v| ==> v[i].start < v[i].end)
    && (forall i, j :: 0 <= i < j < |v| ==> v[i].end <= v[j].start)
  }

  /** `sp` is what the scanner yields for the block of `t` starting at
      `sp.start`: the block is closed, `sp.end` is the end of its closer, and
      the expression and classification are as the source defines them (the
      inner text of a `tex` fence, the full text of an environment; inline
      exactly for the environment `math`). */
  predicate SpanMatches(s: string, t: seq<Option<Block>>, sp: Span) {
    && sp.start < sp.end <= |s| && sp.start < |t|
    && t[sp.start].Some? && t[sp.start].value.closer.Some?
    && var at := t[sp.start].value.closer.value;
       match t[sp.start].value.opener
       case Fence(_, e, k, lang) =>
         && lang == Some("tex") && sp.isBlock && e <= at && sp.end == at + k
         && sp.expression == s[e..at]
       case Begin(_, _, env) =>
         && sp.isBlock == (env != "math") && sp.end == at + |EndTag(env)|
         && sp.expression == s[sp.start..sp.end]
  }

  /** One step of the scan: the first block after the cursor, closed at
      `at`, contributes its span (if it emits one) before the rest. */
  lemma ScanFromStep(s: string, t: seq<Option<Block>>, cursor: nat, o: Opener, at: nat)
    requires Lexed(|s|, t) && cursor < |s| - 1
    requires FindOpener(t, cursor) == Some(o.start) && t[o.start] == Some(Block(o, Some(at)))
    ensures at + |Closer(o)| <= |s|
    ensures ScanFrom(s, t, cursor) == if Emits(o) then Cons(SpanOf(s, o, at), ScanFrom(s, t, at + |Closer(o)|))
                                      else ScanFrom(s, t, at + |Closer(o)|)
  {
  }

  /** The span built for an emitting block matches the source's definition
      and covers the opener through the closer. */
  lemma SpanOfMatches(s: string, t: seq<Option<Block>>, o: Opener, at: nat)
    requires Lexed(|s|, t) && o.start < |t| && t[o.start] == Some(Block(o, Some(at))) && Emits(o)
    ensures at + |Closer(o)| <= |s|
    ensures SpanOf(s, o, at).start == o.start && SpanOf(s, o, at).end == at + |Closer(o)|
    ensures SpanMatches(s, t, SpanOf(s, o, at))
  {
  }

  /** The spans `v`, found from `cursor` on, lie in [cursor, |s|], match
      the source's definition of a span, and come in increasing,
      non-overlapping order. */
  predicate SoundFrom(s: string, t: seq<Option<Block>>, cursor: nat, v: seq<Span>) {
    && Ordered(v)
    && forall i :: 0 <= i < |v| ==> cursor <= v[i].start && SpanMatches(s, t, v[i])
  }

  /** Putting a matching span in front of spans found after it keeps the
      result sound, from any cursor up to the span's start. */
  lemma ConsSound(s: string, t: seq<Option<Block>>, cursor: nat, sp: Span, next: nat, v: seq<Span>)
    requires cursor <= sp.start && sp.end <= next && SpanMatches(s, t, sp)
    requires SoundFrom(s, t, next, v)
    ensures SoundFrom(s, t, cursor, [sp] + v)
  {
    var w := [sp] + v;
    forall i | 0 <= i < |w|
      ensures cursor <= w[i].start && SpanMatches(s, t, w[i])
    {
      if i > 0 { assert w[i] == v[i - 1]; }
    }
    forall i, j | 0 <= i < j < |w|
      ensures w[i].end <= w[j].start
    {
      assert w[j] == v[j - 1];
      if i > 0 { assert w[i] == v[i - 1]; }
    }
  }

  lemma SoundFromEarlier(s: string, t: seq<Option<Block>>, cursor: nat, next: nat, v: seq<Span>)
    requires cursor <= next && SoundFrom(s, t, next, v)
    ensures SoundFrom(s, t, cursor, v)
  {
  }

  /** Every scan from `cursor` on that succeeds is sound from `cursor`. */
  lemma {:induction false} ScanFromSound(s: string, t: seq<Option<Block>>, cursor: nat)
    requires Lexed(|s|, t) && cursor <= |s|
    ensures ScanFrom(s, t, cursor).Ok? ==> SoundFrom(s, t, cursor, ScanFrom(s, t, cursor).value)
    decreases |s| - cursor
  {
    if cursor < |s| - 1 && FindOpener(t, cursor).Some? {
      var b := t[FindOpener(t, cursor).value].value;
      if b.closer.Some? {
        var o, at := b.opener, b.closer.value;
        ScanFromStep(s, t, cursor, o, at);
        ScanFromSound(s, t, at + |Closer(o)|);
        SoundStep(s, t, cursor, o, at);
      }
    }
  }

  /** One step keeps the scan sound: if what is found after the closer is
      sound, so is what is found from the cursor. */
  lemma SoundStep(s: string, t: seq<Option<Block>>, cursor: nat, o: Opener, at: nat)
    requires Lexed(|s|, t) && cursor < |s| - 1
    requires FindOpener(t, cursor) == Some(o.start) && t[o.start] == Some(Block(o, Some(at)))
    requires at + |Closer(o)| <= |s|
    requires ScanFrom(s, t, at + |Closer(o)|).Ok? ==>
               SoundFrom(s, t, at + |Closer(o)|, ScanFrom(s, t, at + |Closer(o)|).value)
    ensures ScanFrom(s, t, cursor).Ok? ==> SoundFrom(s, t, cursor, ScanFrom(s, t, cursor).value)
  {
    var next := at + |Closer(o)|;
    var rest := ScanFrom(s, t, next);
    ScanFromStep(s, t, cursor, o, at);
    if rest.Ok? {
      if Emits(o) {
        SpanOfMatches(s, t, o, at);
        ConsSound(s, t, cursor, SpanOf(s, o, at), next, rest.value);
      } else {
        SoundFromEarlier(s, t, cursor, next, rest.value);
      }
    }
  }

  /** A fence that is not tagged `tex` hides everything up to its closer:
      no span is reported from inside it (not even a `\begin{...}`). */
  lemma SkippedFenceHidesContents(s: string, t: seq<Option<Block>>, cursor: nat, o: Opener, at: nat)
    requires Lexed(|s|, t) && cursor < |s| - 1
    requires FindOpener(t, cursor) == Some(o.start) && t[o.start] == Some(Block(o, Some(at)))
    requires o.Fence? && o.lang != Some("tex")
    ensures ScanFrom(s, t, cursor).Ok? ==>
              forall i :: 0 <= i < |ScanFrom(s, t, cursor).value| ==>
                at + o.ticks <= ScanFrom(s, t, cursor).value[i].start
  {
    ScanFromStep(s, t, cursor, o, at);
    ScanFromSound(s, t, at + |Closer(o)|);
  }

  /** An opener without a closer is fatal, never skipped: when the first
      block after the cursor is unclosed the scan fails naming its opener,
      and every failure names an unclosed block in the rest of the
      document. */
  lemma {:induction false} ScanErrorIsUnclosedOpener(s: string, t: seq<Option<Block>>, cursor: nat)
    requires Lexed(|s|, t) && cursor <= |s|
    ensures cursor < |s| - 1 && FindOpener(t, cursor).Some? ==>
              var b := t[FindOpener(t, cursor).value].value;
              b.closer.None? ==> ScanFrom(s, t, cursor) == Err(MissingCloser(b.opener))
    ensures ScanFrom(s, t, cursor).Err? ==>
              exists p :: cursor <= p < |s| && t[p].Some? && t[p].value.closer.None?
                && ScanFrom(s, t, cursor).error == MissingCloser(t[p].value.opener)
    decreases |s| - cursor
  {
    if cursor < |s| - 1 && FindOpener(t, cursor).Some? {
      var b := t[FindOpener(t, cursor).value].value;
      if b.closer.Some? {
        ScanErrorIsUnclosedOpener(s, t, b.closer.value + |Closer(b.opener)|);
      }
    }
  }

  /** `acc` followed by what `r` yields, or `r`'s error. */
  function Prefixed(acc: seq<Span>, r: Result<seq<Span>, ScanError>): Result<seq<Span>, ScanError> {
    match r
    case Ok(v) => Ok(acc + v)
    case Err(e) => Err(e)
  }

  /** The scan ends, with nothing more to yield, when the cursor is at the
      last character or beyond, or when no opener follows it. */
  lemma ScanFromStops(s: string, t: seq<Option<Block>>, cursor: nat)
    requires Lexed(|s|, t) && cursor <= |s|
    requires cursor >= |s| - 1 || FindOpener(t, cursor).None?
    ensures ScanFrom(s, t, cursor) == Ok([])
  {
  }

  lemma PrefixedNothing(r: Result<seq<Span>, ScanError>)
    ensures Prefixed([], r) == r
  {
    if r.Ok? {
      assert [] + r.value == r.value;
    }
  }

  lemma PrefixedCons(acc: seq<Span>, sp: Span, r: Result<seq<Span>, ScanError>)
    ensures Prefixed(acc, Cons(sp, r)) == Prefixed(acc + [sp], r)
  {
    if r.Ok? {
      assert acc + ([sp] + r.value) == (acc + [sp]) + r.value;
    }
  }

  lemma PrefixedDone(acc: seq<Span>)
    ensures Prefixed(acc, Ok([])) == Ok(acc)
  {
    assert acc + [] == acc;
  }

  /** The closer of every block in `t` is where the closing search started
      after its opener finds it. */
  predicate ClosersFound(s: string, t: seq<Option<Block>>)
    requires Lexed(|s|, t)
  {
    forall p :: 0 <= p < |t| && t[p].Some? ==>
      t[p].value.closer == Find(s, Closer(t[p].value.opener), t[p].value.opener.end)
  }

  lemma BlocksClosersFound(s: string)
    ensures Lexed(|s|, Blocks(s)) && ClosersFound(s, Blocks(s))
  {
    BlocksLexed(s);
    forall p | 0 <= p < |Blocks(s)| && Blocks(s)[p].Some?
      ensures Blocks(s)[p].value.closer == Find(s, Closer(Blocks(s)[p].value.opener), Blocks(s)[p].value.opener.end)
    {
      BlockCloser(s, p);
    }
  }

  /** The generator loop of `extract_equations`, run to completion as
      `render` does with `list(...)`, where `t` holds the match of the
      opening expression at every position of `content` and the result of
      the closing search after it (`BlocksClosersFound`): it returns exactly
      the scan, and the spans it returns are ordered, non-overlapping and
      match the source's definition of a span. */
  method ScanBlocks(content: string, t: seq<Option<Block>>) returns (r: Result<seq<Span>, ScanError>)
    requires Lexed(|content|, t)
    ensures r == ScanFrom(content, t, 0)
    ensures r.Ok? ==> SoundFrom(content, t, 0, r.value)
  {
    ScanFromSound(content, t, 0);
    ghost var whole := ScanFrom(content, t, 0);
    PrefixedNothing(whole);
    var spans: seq<Span> := [];
    var contentInd: nat := 0;
    while true
      invariant contentInd <= |content|
      invariant whole == Prefixed(spans, ScanFrom(content, t, contentInd))
      decreases |content| - contentInd
    {
      if contentInd >= |content| - 1 {
        ScanFromStops(content, t, contentInd);
        PrefixedDone(spans);
        return Ok(spans);
      }
      var startMatch := FindOpener(t, contentInd);
      if startMatch.None? {
        ScanFromStops(content, t, contentInd);
        PrefixedDone(spans);
        return Ok(spans);
      }
      var o := t[startMatch.value].value.opener;
      var endMatch := t[startMatch.value].value.closer;
      if endMatch.None? {
        ScanErrorIsUnclosedOpener(content, t, contentInd);
        return Err(MissingCloser(o));
      }
      var at := endMatch.value;
      var next := at + |Closer(o)|;
      LoopStep(content, t, whole, spans, contentInd, o, at);
      spans := if Emits(o) then spans + [SpanOf(content, o, at)] else spans;
      contentInd := next;
    }
  }

  /** One iteration of the loop of `ScanBlocks` keeps what was yielded so
      far followed by what is still to come equal to the whole scan. */
  lemma LoopStep(content: string, t: seq<Option<Block>>, whole: Result<seq<Span>, ScanError>,
                 spans: seq<Span>, cursor: nat, o: Opener, at: nat)
    requires Lexed(|content|, t) && cursor < |content| - 1
    requires FindOpener(t, cursor) == Some(o.start) && t[o.start] == Some(Block(o, Some(at)))
    requires whole == Prefixed(spans, ScanFrom(content, t, cursor))
    ensures at + |Closer(o)| <= |content|
    ensures whole == Prefixed(if Emits(o) then spans + [SpanOf(content, o, at)] else spans,
                              ScanFrom(content, t, at + |Closer(o)|))
  {
    ScanFromStep(content, t, cursor, o, at);
    if Emits(o) {
      PrefixedCons(spans, SpanOf(content, o, at), ScanFrom(content, t, at + |Closer(o)|));
    }
  }

  /** `list(extract_equations(content))`: the opening expression is tried at
      every position and the loop runs over the result. */
  method ExtractEquations(content: string) returns (r: Result<seq<Span>, ScanError>)
    ensures r == Scan(content)
    ensures r.Ok? ==> Ordered(r.value)
    ensures r.Ok? ==> forall i :: 0 <= i < |r.value| ==> SpanMatches(content, Blocks(content), r.value[i])
  {
    BlocksClosersFound(content);
    r := ScanBlocks(content, Blocks(content));
  }
}
