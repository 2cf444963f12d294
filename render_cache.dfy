/**
 * The per-run deduplication and cache decision of readme2tex's `render`
 * (render.py, the loop over the extracted equations) and the filter that
 * decides which rendered images are written back.
 *
 * The image store (a local `svgs` directory, or the same directory on a git
 * branch), the MD5 naming, the SVG offset parser and the LaTeX toolchain
 * are parameters of the run, collected in a `Context`.
 */
module RenderCache {
  import opened Wrappers
  import opened Scanner

  /** `equation_map` is keyed by a span's `(start, end)`. */
  type Key = (nat, nat)

  function KeyOf(sp: Span): Key {
    (sp.start, sp.end)
  }

  /** An `equation_map` value `(svg, name, dvi, offset)`: `dvi` is present
      exactly when the image was typeset in this run. */
  datatype Entry = Entry(svg: string, name: string, dvi: Option<string>, offset: real)

  /** What typesetting an expression produces: the post-processed SVG, the
      path of the DVI file and the baseline offset. */
  datatype Typeset = Typeset(svg: string, dvi: string, offset: real)

  /** The inputs of a run that are not the document: the `engine` and
      `rerender` options, the stored images by name, the naming function, the
      reader of the offset attribute of a stored image, and the typesetter. */
  datatype Context = Context(
    engine: string,
    rerender: bool,
    store: map<string, string>,
    digest: string -> string,
    parseOffset: string -> Option<real>,
    typeset: (string, bool) -> Typeset)

  /** The exception `rendertex` raises for an engine other than `latex`. */
  datatype RenderError = NotImplemented

  /** The usable stored image for `expr`, if any: a non-empty stored SVG
      whose offset attribute reads back, and only when `rerender` is off. */
  function Cached(ctx: Context, expr: string): (r: Option<Entry>)
    ensures ctx.rerender || ctx.digest(expr) !in ctx.store ==> r.None?
    ensures r.Some? ==> && r.value.name == ctx.digest(expr) && r.value.dvi.None?
                        && r.value.svg == ctx.store[ctx.digest(expr)] && r.value.svg != ""
                        && ctx.parseOffset(r.value.svg) == Some(r.value.offset)
    ensures r.None? ==> ctx.rerender || ctx.digest(expr) !in ctx.store
                        || ctx.store[ctx.digest(expr)] == "" || ctx.parseOffset(ctx.store[ctx.digest(expr)]).None?
  {
    var name := ctx.digest(expr);
    if !ctx.rerender && name in ctx.store && ctx.store[name] != ""
       && ctx.parseOffset(ctx.store[name]).Some?
    then Some(Entry(ctx.store[name], name, None, ctx.parseOffset(ctx.store[name]).value))
    else None
  }

  /** Typesetting the span's expression in its own mode (inline or display). */
  function Fresh(ctx: Context, sp: Span): (r: Result<Entry, RenderError>)
    ensures r.Err? <==> ctx.engine != "latex"
    ensures r.Ok? ==> && r.value.name == ctx.digest(sp.expression) && r.value.dvi.Some?
                      && r.value.svg == ctx.typeset(sp.expression, sp.isBlock).svg
  {
    if ctx.engine != "latex" then Err(NotImplemented)
    else
      var t := ctx.typeset(sp.expression, sp.isBlock);
      Ok(Entry(t.svg, ctx.digest(sp.expression), Some(t.dvi), t.offset))
  }

  /** The entry the first occurrence of an expression gets. */
  function Decide(ctx: Context, sp: Span): Result<Entry, RenderError> {
    match Cached(ctx, sp.expression)
    case Some(e) => Ok(e)
    case None => Fresh(ctx, sp)
  }

  /** Some span's expression has no usable stored image. */
  predicate Misses(ctx: Context, spans: seq<Span>) {
    exists i :: 0 <= i < |spans| && Cached(ctx, spans[i].expression).None?
  }

  /** The index of the first span with the same expression as span `j`
      (that no earlier span has it is `FirstOfIsFirst`). */
  function FirstOf(spans: seq<Span>, j: nat): (k: nat)
    requires j < |spans|
    ensures k <= j && spans[k].expression == spans[j].expression
  {
    FirstFrom(spans, j, 0)
  }

  function FirstFrom(spans: seq<Span>, j: nat, from: nat): (k: nat)
    requires from <= j < |spans|
    ensures from <= k <= j && spans[k].expression == spans[j].expression
    decreases j - from
  {
    if spans[from].expression == spans[j].expression then from else FirstFrom(spans, j, from + 1)
  }

  lemma {:induction false} FirstFromIsFirst(spans: seq<Span>, j: nat, from: nat)
    requires from <= j < |spans|
    ensures forall m :: from <= m < FirstFrom(spans, j, from) ==> spans[m].expression != spans[j].expression
    decreases j - from
  {
    if spans[from].expression != spans[j].expression {
      FirstFromIsFirst(spans, j, from + 1);
    }
  }

  /** No span before `FirstOf(spans, j)` has the expression of span `j`. */
  lemma FirstOfIsFirst(spans: seq<Span>, j: nat)
    requires j < |spans|
    ensures forall m :: 0 <= m < FirstOf(spans, j) ==> spans[m].expression != spans[j].expression
  {
    FirstFromIsFirst(spans, j, 0);
  }

  /** No two spans share a `(start, end)` key, as for the scanner's output. */
  predicate DistinctKeys(spans: seq<Span>) {
    forall i, j :: 0 <= i < j < |spans| ==> KeyOf(spans[i]) != KeyOf(spans[j])
  }

  /** The scanner's output meets the precondition of `ResolveEquations`. */
  lemma OrderedDistinctKeys(spans: seq<Span>)
    requires Ordered(spans)
    ensures DistinctKeys(spans)
  {
  }

  /** The state `render` has after the loop: `equation_map` and
      `has_changes`. */
  datatype Resolution = Resolution(equationMap: map<Key, Entry>, hasChanges: bool)

  /** Every span has an entry in `equationMap`. */
  predicate Covers(spans: seq<Span>, equationMap: map<Key, Entry>) {
    forall j :: 0 <= j < |spans| ==> KeyOf(spans[j]) in equationMap
  }

  /** `res` is the outcome of the loop on `spans`: its keys are those of the
      spans, and it is `Decided` for them. */
  predicate ResolvedBy(ctx: Context, spans: seq<Span>, res: Resolution) {
    && (forall k :: k in res.equationMap ==> exists i :: 0 <= i < |spans| && KeyOf(spans[i]) == k)
    && Decided(ctx, spans, res)
  }

  /** Every span has an entry, the entry is the one decided for the FIRST
      span with the same expression, and `has_changes` is set exactly when
      some expression had no usable stored image. */
  predicate Decided(ctx: Context, spans: seq<Span>, res: Resolution) {
    && Covers(spans, res.equationMap)
    && (forall i {:trigger res.equationMap[KeyOf(spans[i])]} :: 0 <= i < |spans| ==>
          Decide(ctx, spans[FirstOf(spans, i)]) == Ok(res.equationMap[KeyOf(spans[i])]))
    && (res.hasChanges <==> Misses(ctx, spans))
  }

  predicate NoDuplicates(v: seq<string>) {
    forall i, j :: 0 <= i < j < |v| ==> v[i] != v[j]
  }

  /** The expressions among the first `i` spans that miss the cache, each
      taken at its first span, in order. */
  function Missed(ctx: Context, spans: seq<Span>, i: nat): seq<string>
    requires i <= |spans|
  {
    if i == 0 then []
    else if FirstOf(spans, i - 1) == i - 1 && Cached(ctx, spans[i - 1].expression).None?
    then Missed(ctx, spans, i - 1) + [spans[i - 1].expression]
    else Missed(ctx, spans, i - 1)
  }

  /** Each expression that misses the cache is listed once, and only those. */
  lemma {:induction false} MissedOnce(ctx: Context, spans: seq<Span>, i: nat)
    requires i <= |spans|
    ensures NoDuplicates(Missed(ctx, spans, i))
    ensures forall e :: e in Missed(ctx, spans, i) <==>
              exists j :: 0 <= j < i && spans[j].expression == e && Cached(ctx, e).None?
  {
    if i > 0 {
      MissedOnce(ctx, spans, i - 1);
      var e := spans[i - 1].expression;
      if FirstOf(spans, i - 1) != i - 1 {
        var f := FirstOf(spans, i - 1);
        assert spans[f].expression == e;
      } else {
        FirstOfIsFirst(spans, i - 1);
      }
    }
  }

  /** The expressions of the first `i` spans. */
  ghost function ExprSet(spans: seq<Span>, i: nat): set<string>
    requires i <= |spans|
  {
    if i == 0 then {} else ExprSet(spans, i - 1) + {spans[i - 1].expression}
  }

  /** The keys of the first `i` spans. */
  ghost function KeySet(spans: seq<Span>, i: nat): set<Key>
    requires i <= |spans|
  {
    if i == 0 then {} else KeySet(spans, i - 1) + {KeyOf(spans[i - 1])}
  }

  lemma {:induction false} ExprIndex(spans: seq<Span>, i: nat, e: string) returns (k: nat)
    requires i <= |spans| && e in ExprSet(spans, i)
    ensures k < i && spans[k].expression == e
  {
    if spans[i - 1].expression == e {
      k := i - 1;
    } else {
      k := ExprIndex(spans, i - 1, e);
    }
  }

  lemma {:induction false} KeyIndex(spans: seq<Span>, i: nat, key: Key) returns (k: nat)
    requires i <= |spans| && key in KeySet(spans, i)
    ensures k < i && KeyOf(spans[k]) == key
  {
    if KeyOf(spans[i - 1]) == key {
      k := i - 1;
    } else {
      k := KeyIndex(spans, i - 1, key);
    }
  }

  /** `seen` maps each expression of the first `i` spans to the key of the
      first span with it. */
  ghost predicate SeenFirst(spans: seq<Span>, i: nat, seen: map<string, Key>)
    requires i <= |spans|
  {
    && seen.Keys <= ExprSet(spans, i)
    && (forall j :: 0 <= j < i ==> spans[j].expression in seen)
    && (forall j {:trigger seen[spans[j].expression]} :: 0 <= j < i ==>
          seen[spans[j].expression] == KeyOf(spans[FirstOf(spans, j)]))
  }

  /** Each of the first `i` spans has the entry decided for the first span
      with its expression. */
  ghost predicate EntriesDecided(ctx: Context, spans: seq<Span>, i: nat, equationMap: map<Key, Entry>)
    requires i <= |spans|
  {
    EntriesBy(Decider(ctx), spans, i, equationMap)
  }

  ghost function Decider(ctx: Context): Span -> Result<Entry, RenderError> {
    sp => Decide(ctx, sp)
  }

  /** Each of the first `i` spans has the entry `decide` gives the first
      span with its expression. */
  ghost predicate EntriesBy(decide: Span -> Result<Entry, RenderError>, spans: seq<Span>, i: nat, equationMap: map<Key, Entry>)
    requires i <= |spans|
  {
    && equationMap.Keys <= KeySet(spans, i)
    && (forall j :: 0 <= j < i ==> KeyOf(spans[j]) in equationMap)
    && (forall j {:trigger equationMap[KeyOf(spans[j])]} :: 0 <= j < i ==>
          decide(spans[FirstOf(spans, j)]) == Ok(equationMap[KeyOf(spans[j])]))
  }

  /** What the loop of `render` knows after the first `i` spans. */
  ghost predicate LoopState(ctx: Context, spans: seq<Span>, i: nat, seen: map<string, Key>,
                            equationMap: map<Key, Entry>, hasChanges: bool, rendered: seq<string>)
  {
    && i <= |spans|
    && SeenFirst(spans, i, seen)
    && EntriesDecided(ctx, spans, i, equationMap)
    && rendered == Missed(ctx, spans, i)
    && (hasChanges <==> rendered != [])
    && (ctx.engine != "latex" ==> rendered == [])
  }

  lemma LoopStart(ctx: Context, spans: seq<Span>)
    ensures LoopState(ctx, spans, 0, map[], map[], false, [])
  {
  }

  /** A span whose expression was met before copies the entry of the first
      span with that expression. */
  lemma StepRepeated(ctx: Context, spans: seq<Span>, i: nat, seen: map<string, Key>,
                     equationMap: map<Key, Entry>, hasChanges: bool, rendered: seq<string>)
    requires DistinctKeys(spans) && i < |spans|
    requires LoopState(ctx, spans, i, seen, equationMap, hasChanges, rendered)
    requires spans[i].expression in seen
    ensures seen[spans[i].expression] in equationMap
    ensures LoopState(ctx, spans, i + 1, seen,
                      equationMap[KeyOf(spans[i]) := equationMap[seen[spans[i].expression]]], hasChanges, rendered)
  {
    var e := spans[i].expression;
    var k := ExprIndex(spans, i, e);
    SameFirst(spans, k, i);
    SeenRepeated(spans, i, seen, k);
    NewKey(spans, i, equationMap);
    EntriesRepeated(ctx, spans, i, equationMap, seen[e], k);
  }

  lemma SeenRepeated(spans: seq<Span>, i: nat, seen: map<string, Key>, k: nat)
    requires i < |spans| && SeenFirst(spans, i, seen)
    requires k < i && spans[k].expression == spans[i].expression && FirstOf(spans, k) == FirstOf(spans, i)
    ensures SeenFirst(spans, i + 1, seen)
  {
    assert ExprSet(spans, i + 1) == ExprSet(spans, i) + {spans[i].expression};
    forall j | 0 <= j < i + 1
      ensures spans[j].expression in seen
      ensures seen[spans[j].expression] == KeyOf(spans[FirstOf(spans, j)])
    {
      if j == i {
        assert spans[j].expression == spans[k].expression;
      }
    }
  }

  lemma EntriesRepeated(ctx: Context, spans: seq<Span>, i: nat, equationMap: map<Key, Entry>, first: Key, k: nat)
    requires i < |spans| && EntriesDecided(ctx, spans, i, equationMap) && KeyOf(spans[i]) !in equationMap
    requires k < i && FirstOf(spans, k) == FirstOf(spans, i) && first == KeyOf(spans[FirstOf(spans, k)])
    ensures first in equationMap
    ensures EntriesDecided(ctx, spans, i + 1, equationMap[KeyOf(spans[i]) := equationMap[first]])
  {
    var f := FirstOf(spans, k);
    FirstOfFirst(spans, k);
    assert KeyOf(spans[f]) in equationMap;
    assert Decide(ctx, spans[FirstOf(spans, f)]) == Ok(equationMap[KeyOf(spans[f])]);
    EntriesAdded(ctx, spans, i, equationMap, equationMap[first]);
  }

  /** Spans with the same expression have the same first span. */
  lemma SameFirst(spans: seq<Span>, i: nat, j: nat)
    requires i < |spans| && j < |spans| && spans[i].expression == spans[j].expression
    ensures FirstOf(spans, i) == FirstOf(spans, j)
  {
    FirstOfIsFirst(spans, i);
    FirstOfIsFirst(spans, j);
  }

  /** The first span with an expression is its own first span. */
  lemma FirstOfFirst(spans: seq<Span>, j: nat)
    requires j < |spans|
    ensures FirstOf(spans, FirstOf(spans, j)) == FirstOf(spans, j)
  {
    FirstOfIsFirst(spans, j);
  }

  /** Adding the entry decided for span `i`, whose key is new, keeps the
      entries decided. */
  lemma EntriesAdded(ctx: Context, spans: seq<Span>, i: nat, equationMap: map<Key, Entry>, entry: Entry)
    requires i < |spans| && EntriesDecided(ctx, spans, i, equationMap)
    requires KeyOf(spans[i]) !in equationMap
    requires Decide(ctx, spans[FirstOf(spans, i)]) == Ok(entry)
    ensures EntriesDecided(ctx, spans, i + 1, equationMap[KeyOf(spans[i]) := entry])
  {
    EntriesAddedBy(Decider(ctx), spans, i, equationMap, entry);
  }

  lemma EntriesAddedBy(decide: Span -> Result<Entry, RenderError>, spans: seq<Span>, i: nat, equationMap: map<Key, Entry>, entry: Entry)
    requires i < |spans| && EntriesBy(decide, spans, i, equationMap)
    requires KeyOf(spans[i]) !in equationMap
    requires decide(spans[FirstOf(spans, i)]) == Ok(entry)
    ensures EntriesBy(decide, spans, i + 1, equationMap[KeyOf(spans[i]) := entry])
  {
    var m := equationMap[KeyOf(spans[i]) := entry];
    assert KeySet(spans, i + 1) == KeySet(spans, i) + {KeyOf(spans[i])};
    forall j | 0 <= j < i + 1
      ensures KeyOf(spans[j]) in m
      ensures decide(spans[FirstOf(spans, j)]) == Ok(m[KeyOf(spans[j])])
    {
      if j < i {
        assert KeyOf(spans[j]) in equationMap;
      }
    }
  }

  /** With distinct keys, the key of span `i` is not yet in the map. */
  lemma NewKey(spans: seq<Span>, i: nat, equationMap: map<Key, Entry>)
    requires DistinctKeys(spans) && i < |spans| && equationMap.Keys <= KeySet(spans, i)
    ensures KeyOf(spans[i]) !in equationMap
  {
    if KeyOf(spans[i]) in equationMap {
      var k := KeyIndex(spans, i, KeyOf(spans[i]));
      assert false;
    }
  }

  /** The first span with a new expression is the span itself. */
  lemma SeenNew(spans: seq<Span>, i: nat, seen: map<string, Key>)
    requires i < |spans| && SeenFirst(spans, i, seen) && spans[i].expression !in seen
    ensures FirstOf(spans, i) == i
    ensures SeenFirst(spans, i + 1, seen[spans[i].expression := KeyOf(spans[i])])
  {
    forall j | 0 <= j < i
      ensures spans[j].expression != spans[i].expression
    {
      assert spans[j].expression in seen;
    }
  }

  /** A new expression with a usable stored image is recorded without a
      DVI file. */
  lemma StepCached(ctx: Context, spans: seq<Span>, i: nat, seen: map<string, Key>,
                   equationMap: map<Key, Entry>, hasChanges: bool, rendered: seq<string>)
    requires DistinctKeys(spans) && i < |spans|
    requires LoopState(ctx, spans, i, seen, equationMap, hasChanges, rendered)
    requires spans[i].expression !in seen && Cached(ctx, spans[i].expression).Some?
    ensures LoopState(ctx, spans, i + 1, seen[spans[i].expression := KeyOf(spans[i])],
                      equationMap[KeyOf(spans[i]) := Cached(ctx, spans[i].expression).value], hasChanges, rendered)
  {
    SeenNew(spans, i, seen);
    NewKey(spans, i, equationMap);
    EntriesAdded(ctx, spans, i, equationMap, Cached(ctx, spans[i].expression).value);
  }

  /** A new expression without a usable stored image is typeset: its entry
      has a DVI file, `has_changes` is set and it joins `rendered`. */
  lemma StepFresh(ctx: Context, spans: seq<Span>, i: nat, seen: map<string, Key>,
                  equationMap: map<Key, Entry>, hasChanges: bool, rendered: seq<string>)
    requires DistinctKeys(spans) && i < |spans|
    requires LoopState(ctx, spans, i, seen, equationMap, hasChanges, rendered)
    requires spans[i].expression !in seen && Cached(ctx, spans[i].expression).None? && ctx.engine == "latex"
    ensures LoopState(ctx, spans, i + 1, seen[spans[i].expression := KeyOf(spans[i])],
                      equationMap[KeyOf(spans[i]) := Fresh(ctx, spans[i]).value], true,
                      rendered + [spans[i].expression])
  {
    SeenNew(spans, i, seen);
    NewKey(spans, i, equationMap);
    EntriesAdded(ctx, spans, i, equationMap, Fresh(ctx, spans[i]).value);
  }

  /** The dedup and cache-decision loop of `render`. It fails exactly when
      an expression must be typeset with an engine other than `latex`;
      otherwise it resolves every span, later copies of an expression share
      the first copy's entry, and `rendered` (the expressions handed to the
      typesetter, in order) holds each expression without a usable stored
      image exactly once. */
  method ResolveEquations(ctx: Context, equations: seq<Span>) returns (r: Result<Resolution, RenderError>, ghost rendered: seq<string>)
    requires DistinctKeys(equations)
    ensures r.Err? <==> ctx.engine != "latex" && Misses(ctx, equations)
    ensures r.Ok? ==> ResolvedBy(ctx, equations, r.value)
    ensures r.Ok? ==> NoDuplicates(rendered)
    ensures r.Ok? ==> forall e :: e in rendered <==>
              exists i :: 0 <= i < |equations| && equations[i].expression == e && Cached(ctx, e).None?
  {
    var equationMap: map<Key, Entry> := map[];
    var seen: map<string, Key> := map[];
    var hasChanges := false;
    rendered := [];
    LoopStart(ctx, equations);
    for i := 0 to |equations|
      invariant LoopState(ctx, equations, i, seen, equationMap, hasChanges, rendered)
    {
      var sp := equations[i];
      if sp.expression in seen {
        StepRepeated(ctx, equations, i, seen, equationMap, hasChanges, rendered);
        equationMap := equationMap[KeyOf(sp) := equationMap[seen[sp.expression]]];
      } else {
        var name := ctx.digest(sp.expression);
        var svg: Option<string> := if name in ctx.store then Some(ctx.store[name]) else None;
        var offset: Option<real> := None;
        if svg.Some? && svg.value != "" && !ctx.rerender {
          offset := ctx.parseOffset(svg.value);
        }
        if offset.Some? {
          StepCached(ctx, equations, i, seen, equationMap, hasChanges, rendered);
          equationMap := equationMap[KeyOf(sp) := Entry(svg.value, name, None, offset.value)];
        } else {
          if ctx.engine != "latex" {
            NoLatexFails(ctx, equations, i);
            return Err(NotImplemented), rendered;
          }
          StepFresh(ctx, equations, i, seen, equationMap, hasChanges, rendered);
          var t := ctx.typeset(sp.expression, sp.isBlock);
          rendered := rendered + [sp.expression];
          hasChanges := true;
          equationMap := equationMap[KeyOf(sp) := Entry(t.svg, name, Some(t.dvi), t.offset)];
        }
        seen := seen[sp.expression := KeyOf(sp)];
      }
    }
    LoopDone(ctx, equations, seen, equationMap, hasChanges, rendered);
    r := Ok(Resolution(equationMap, hasChanges));
  }

  /** The first miss with an engine other than `latex` is a miss of the
      whole run. */
  lemma NoLatexFails(ctx: Context, spans: seq<Span>, i: nat)
    requires i < |spans| && Cached(ctx, spans[i].expression).None?
    ensures Misses(ctx, spans)
  {
  }

  /** After the last span the loop state is the outcome the method promises. */
  lemma LoopDone(ctx: Context, spans: seq<Span>, seen: map<string, Key>,
                 equationMap: map<Key, Entry>, hasChanges: bool, rendered: seq<string>)
    requires LoopState(ctx, spans, |spans|, seen, equationMap, hasChanges, rendered)
    ensures !(ctx.engine != "latex" && Misses(ctx, spans))
    ensures ResolvedBy(ctx, spans, Resolution(equationMap, hasChanges))
    ensures NoDuplicates(rendered)
    ensures forall e :: e in rendered <==> exists i :: 0 <= i < |spans| && spans[i].expression == e && Cached(ctx, e).None?
  {
    RenderedMisses(ctx, spans, rendered);
    Resolved(ctx, spans, equationMap, hasChanges);
  }

  lemma Resolved(ctx: Context, spans: seq<Span>, equationMap: map<Key, Entry>, hasChanges: bool)
    requires EntriesDecided(ctx, spans, |spans|, equationMap)
    requires hasChanges <==> Misses(ctx, spans)
    ensures ResolvedBy(ctx, spans, Resolution(equationMap, hasChanges))
  {
    KeysFromSpans(spans, equationMap);
  }

  /** The expressions typeset over the whole run are the misses, once each. */
  lemma RenderedMisses(ctx: Context, spans: seq<Span>, rendered: seq<string>)
    requires rendered == Missed(ctx, spans, |spans|)
    ensures NoDuplicates(rendered)
    ensures forall e :: e in rendered <==> exists i :: 0 <= i < |spans| && spans[i].expression == e && Cached(ctx, e).None?
    ensures rendered != [] <==> Misses(ctx, spans)
  {
    MissedOnce(ctx, spans, |spans|);
    if Misses(ctx, spans) {
      var i :| 0 <= i < |spans| && Cached(ctx, spans[i].expression).None?;
      assert spans[i].expression in rendered;
    }
    if rendered != [] {
      assert rendered[0] in rendered;
    }
  }

  /** Every key of a map whose keys are span keys is the key of some span. */
  lemma KeysFromSpans(spans: seq<Span>, equationMap: map<Key, Entry>)
    requires equationMap.Keys <= KeySet(spans, |spans|)
    ensures forall key :: key in equationMap ==> exists i :: 0 <= i < |spans| && KeyOf(spans[i]) == key
  {
    forall key | key in equationMap
      ensures exists i :: 0 <= i < |spans| && KeyOf(spans[i]) == key
    {
      var k := KeyIndex(spans, |spans|, key);
    }
  }

  /** Python's truth value of the `dvi` field: present and non-empty. */
  predicate Written(e: Entry) {
    e.dvi.Some? && e.dvi.value != ""
  }

  /** Span `j` has an entry that is written back under `name`. */
  predicate WrittenAs(spans: seq<Span>, equationMap: map<Key, Entry>, j: nat, name: string)
    requires j < |spans| && KeyOf(spans[j]) in equationMap
  {
    Written(equationMap[KeyOf(spans[j])]) && equationMap[KeyOf(spans[j])].name == name
  }

  /** The store after the write-back loop has visited the first `n` spans:
      each span whose entry has a DVI file writes its SVG under its name. */
  function Persisted(store: map<string, string>, spans: seq<Span>, equationMap: map<Key, Entry>, n: nat): map<string, string>
    requires n <= |spans| && Covers(spans, equationMap)
  {
    if n == 0 then store
    else
      var e := equationMap[KeyOf(spans[n - 1])];
      var p := Persisted(store, spans, equationMap, n - 1);
      if Written(e) then p[e.name := e.svg] else p
  }

  /** The names in the store after the write-back: the old names and the
      names written. */
  lemma {:induction false} PersistedNames(store: map<string, string>, spans: seq<Span>, equationMap: map<Key, Entry>, n: nat, name: string)
    requires n <= |spans| && Covers(spans, equationMap)
    ensures name in Persisted(store, spans, equationMap, n) <==>
              name in store || exists j :: 0 <= j < n && WrittenAs(spans, equationMap, j, name)
  {
    if n > 0 {
      PersistedNames(store, spans, equationMap, n - 1, name);
      if WrittenAs(spans, equationMap, n - 1, name) {
        assert name in Persisted(store, spans, equationMap, n);
      } else {
        assert name in Persisted(store, spans, equationMap, n) <==> name in Persisted(store, spans, equationMap, n - 1);
        if exists j :: 0 <= j < n && WrittenAs(spans, equationMap, j, name) {
          var j :| 0 <= j < n && WrittenAs(spans, equationMap, j, name);
          assert j < n - 1;
        }
      }
    }
  }

  /** A name no span writes keeps its old image. */
  lemma {:induction false} PersistedKeeps(store: map<string, string>, spans: seq<Span>, equationMap: map<Key, Entry>, n: nat, name: string)
    requires n <= |spans| && Covers(spans, equationMap)
    requires name in store && forall j :: 0 <= j < n ==> !WrittenAs(spans, equationMap, j, name)
    ensures name in Persisted(store, spans, equationMap, n)
    ensures Persisted(store, spans, equationMap, n)[name] == store[name]
  {
    if n > 0 {
      PersistedKeeps(store, spans, equationMap, n - 1, name);
      assert !WrittenAs(spans, equationMap, n - 1, name);
    }
  }

  /** A written name holds the SVG of the last span written under it. */
  lemma {:induction false} PersistedLast(store: map<string, string>, spans: seq<Span>, equationMap: map<Key, Entry>, n: nat, j: nat, name: string)
    returns (l: nat)
    requires n <= |spans| && Covers(spans, equationMap)
    requires j < n && WrittenAs(spans, equationMap, j, name)
    ensures j <= l < n && WrittenAs(spans, equationMap, l, name)
    ensures name in Persisted(store, spans, equationMap, n)
    ensures Persisted(store, spans, equationMap, n)[name] == equationMap[KeyOf(spans[l])].svg
    ensures forall l' :: l < l' < n ==> !WrittenAs(spans, equationMap, l', name)
  {
    if WrittenAs(spans, equationMap, n - 1, name) {
      l := n - 1;
    } else {
      l := PersistedLast(store, spans, equationMap, n - 1, j, name);
    }
  }

  /** The write-back of `render`: only when `has_changes` is set, the SVG of
      every entry with a DVI file is stored under its name, span by span. */
  method PersistFresh(store: map<string, string>, equations: seq<Span>, equationMap: map<Key, Entry>, hasChanges: bool)
    returns (written: map<string, string>)
    requires Covers(equations, equationMap)
    ensures written == if hasChanges then Persisted(store, equations, equationMap, |equations|) else store
  {
    written := store;
    if hasChanges {
      for i := 0 to |equations|
        invariant written == Persisted(store, equations, equationMap, i)
      {
        var e := equationMap[KeyOf(equations[i])];
        if e.dvi.Some? && e.dvi.value != "" {
          written := written[e.name := e.svg];
        }
      }
    }
  }

  /** Without `has_changes` the write-back loop is skipped; had it run, it
      would have written nothing, since every entry then came from the
      store. */
  lemma {:induction false} NothingFreshWithoutChanges(ctx: Context, spans: seq<Span>, res: Resolution, n: nat)
    requires Decided(ctx, spans, res) && !res.hasChanges && n <= |spans|
    ensures Persisted(ctx.store, spans, res.equationMap, n) == ctx.store
  {
    if n > 0 {
      NothingFreshWithoutChanges(ctx, spans, res, n - 1);
      var f := FirstOf(spans, n - 1);
      assert Cached(ctx, spans[f].expression).Some?;
      assert Decide(ctx, spans[f]) == Ok(res.equationMap[KeyOf(spans[n - 1])]);
    }
  }

  /** An entry that is written back was typeset in this run, for the first
      span with its expression, and is named after that expression. */
  lemma WrittenWasTypeset(ctx: Context, spans: seq<Span>, res: Resolution, j: nat)
    requires Decided(ctx, spans, res) && j < |spans|
    requires Written(res.equationMap[KeyOf(spans[j])])
    ensures Cached(ctx, spans[j].expression).None?
    ensures res.equationMap[KeyOf(spans[j])].name == ctx.digest(spans[j].expression)
    ensures res.equationMap[KeyOf(spans[j])].svg == ctx.typeset(spans[j].expression, spans[FirstOf(spans, j)].isBlock).svg
  {
    var f := FirstOf(spans, j);
    assert Decide(ctx, spans[f]) == Ok(res.equationMap[KeyOf(spans[j])]);
  }

  /** The typesetter always yields an SVG whose offset reads back, and a DVI
      path. */
  ghost predicate TypesetUsable(ctx: Context) {
    forall expr, block :: ctx.typeset(expr, block).svg != ""
      && ctx.parseOffset(ctx.typeset(expr, block).svg).Some?
      && ctx.typeset(expr, block).dvi != ""
  }

  /** The point of the store: once the images typeset in a run are written
      back, a second run over the same document (without `rerender`) that
      reads the store the first run wrote finds every expression there and
      typesets nothing. `render` reads what it wrote when no branch is given
      (both go to the working tree) and when the branch is another one (the
      write-back is committed there); not when the branch is the checked-out
      one, where the images are written to the working tree but read back
      from the last commit. */
  lemma SecondRunTypesetsNothing(ctx: Context, spans: seq<Span>, res: Resolution)
    requires Decided(ctx, spans, res)
    requires !ctx.rerender && TypesetUsable(ctx)
    ensures var written := if res.hasChanges then Persisted(ctx.store, spans, res.equationMap, |spans|) else ctx.store;
            !Misses(ctx.(store := written), spans)
  {
    var written := if res.hasChanges then Persisted(ctx.store, spans, res.equationMap, |spans|) else ctx.store;
    forall i | 0 <= i < |spans|
      ensures Cached(ctx.(store := written), spans[i].expression).Some?
    {
      HitAfterWriteBack(ctx, spans, res, i);
    }
  }

  lemma HitAfterWriteBack(ctx: Context, spans: seq<Span>, res: Resolution, i: nat)
    requires Decided(ctx, spans, res) && i < |spans|
    requires !ctx.rerender && TypesetUsable(ctx)
    ensures var written := if res.hasChanges then Persisted(ctx.store, spans, res.equationMap, |spans|) else ctx.store;
            Cached(ctx.(store := written), spans[i].expression).Some?
  {
    var e := spans[i].expression;
    var name := ctx.digest(e);
    if !res.hasChanges {
      assert !Misses(ctx, spans);
      assert Cached(ctx, e).Some?;
    } else {
      var written := Persisted(ctx.store, spans, res.equationMap, |spans|);
      var svg := StoredAfterWriteBack(ctx, spans, res, i);
      assert name in written && written[name] == svg;
    }
  }

  /** With changes, the image stored under the name of span `i` after the
      write-back is usable. */
  lemma StoredAfterWriteBack(ctx: Context, spans: seq<Span>, res: Resolution, i: nat) returns (svg: string)
    requires Decided(ctx, spans, res) && i < |spans|
    requires !ctx.rerender && TypesetUsable(ctx)
    ensures var written := Persisted(ctx.store, spans, res.equationMap, |spans|);
            var name := ctx.digest(spans[i].expression);
            name in written && written[name] == svg && svg != "" && ctx.parseOffset(svg).Some?
  {
    var e := spans[i].expression;
    var name := ctx.digest(e);
    var written := Persisted(ctx.store, spans, res.equationMap, |spans|);
    if exists j :: 0 <= j < |spans| && WrittenAs(spans, res.equationMap, j, name) {
      var j :| 0 <= j < |spans| && WrittenAs(spans, res.equationMap, j, name);
      var l := PersistedLast(ctx.store, spans, res.equationMap, |spans|, j, name);
      WrittenWasTypeset(ctx, spans, res, l);
      svg := written[name];
    } else {
      var f := FirstOf(spans, i);
      assert Decide(ctx, spans[f]) == Ok(res.equationMap[KeyOf(spans[i])]);
      if Cached(ctx, e).None? {
        assert WrittenAs(spans, res.equationMap, i, name);
        assert false;
      }
      PersistedKeeps(ctx.store, spans, res.equationMap, |spans|, name);
      svg := written[name];
    }
  }

  /** Dedup: spans with the same expression text share one entry. */
  lemma RepeatsShareEntry(ctx: Context, spans: seq<Span>, res: Resolution, i: nat, j: nat)
    requires Decided(ctx, spans, res)
    requires i < |spans| && j < |spans| && spans[i].expression == spans[j].expression
    ensures res.equationMap[KeyOf(spans[i])] == res.equationMap[KeyOf(spans[j])]
  {
    SameFirst(spans, i, j);
    assert Decide(ctx, spans[FirstOf(spans, i)]) == Ok(res.equationMap[KeyOf(spans[i])]);
    assert Decide(ctx, spans[FirstOf(spans, j)]) == Ok(res.equationMap[KeyOf(spans[j])]);
  }

  /** An entry records a DVI file exactly when its expression had no usable
      stored image; a stored image is reused as it is, under the
      expression's name. */
  lemma DviIffTypeset(ctx: Context, spans: seq<Span>, res: Resolution, j: nat)
    requires Decided(ctx, spans, res) && j < |spans|
    ensures res.equationMap[KeyOf(spans[j])].dvi.Some? <==> Cached(ctx, spans[j].expression).None?
    ensures res.equationMap[KeyOf(spans[j])].name == ctx.digest(spans[j].expression)
    ensures Cached(ctx, spans[j].expression).Some? ==>
              res.equationMap[KeyOf(spans[j])].svg == ctx.store[ctx.digest(spans[j].expression)]
  {
    assert Decide(ctx, spans[FirstOf(spans, j)]) == Ok(res.equationMap[KeyOf(spans[j])]);
  }
}
