/**
 * How `render` turns its options into the address of each image: `htmlize`
 * forces local links and drops the branch, `nocdn` picks the relative-path
 * template over the jsDelivr one, and `pngtrick` swaps the `.svg` suffix for
 * `.png`. The template is then filled in as Python's `str.format` does.
 */
module UrlOptions {
  import opened Wrappers

  /** The options of `render` that decide the image address. */
  datatype Options = Options(nocdn: bool, htmlize: bool, pngtrick: bool, branch: Option<string>)

  /** The start of `render`: `htmlize` implies `nocdn` and no branch. */
  function Normalize(o: Options): (r: Options)
    ensures r.htmlize == o.htmlize && r.pngtrick == o.pngtrick
    ensures r.htmlize ==> r.nocdn && r.branch.None?
    ensures !o.htmlize ==> r == o
  {
    if o.htmlize then o.(nocdn := true, branch := None) else o
  }

  /** A format template: text and `{key}` replacement fields. */
  datatype Pattern = End | Lit(text: string, rest: Pattern) | Hole(key: string, rest: Pattern)

  /** The template as Python writes it. */
  function Text(p: Pattern): string {
    match p
    case End => ""
    case Lit(s, rest) => s + Text(rest)
    case Hole(k, rest) => "{" + k + "}" + Text(rest)
  }

  /** The template filled in with `fields`. */
  function Fill(p: Pattern, fields: map<string, string>): string
    requires Keys(p) <= fields.Keys
  {
    match p
    case End => ""
    case Lit(s, rest) => s + Fill(rest, fields)
    case Hole(k, rest) => fields[k] + Fill(rest, fields)
  }

  function Keys(p: Pattern): set<string> {
    match p
    case End => {}
    case Lit(_, rest) => Keys(rest)
    case Hole(k, rest) => {k} + Keys(rest)
  }

  /** `p` followed by `q`. */
  function Then(p: Pattern, q: Pattern): Pattern {
    match p
    case End => q
    case Lit(s, rest) => Lit(s, Then(rest, q))
    case Hole(k, rest) => Hole(k, Then(rest, q))
  }

  /** `{svgdir}/{name}` */
  const LocalPath: Pattern := Hole("svgdir", Lit("/", Hole("name", End)))

  /** `https://cdn.jsdelivr.net/gh/{user}/{project}@{branch}/{svgdir}/{name}` */
  const CdnPath: Pattern :=
    Lit("https://cdn.jsdelivr.net/gh/", Hole("user", Lit("/", Hole("project", Lit("@", Hole("branch", Lit("/", LocalPath)))))))

  /** The two templates of `render`: the local one, `{svgdir}/{name}.svg`,
      and the jsDelivr one ending in the same `{svgdir}/{name}.svg`. */
  const LocalTemplate: string := Text(Then(LocalPath, Lit(".svg", End)))
  const CdnTemplate: string := Text(Then(CdnPath, Lit(".svg", End)))

  /** The URL template of a run: local or CDN by `nocdn`, with the last four
      characters replaced by `.png` under `pngtrick`. */
  function Template(o: Options): string {
    var t := if o.nocdn then LocalTemplate else CdnTemplate;
    if o.pngtrick then t[..|t| - 4] + ".png" else t
  }

  predicate NoBraces(s: string) {
    forall i :: 0 <= i < |s| ==> s[i] != '{' && s[i] != '}'
  }

  /** The index of the first `}` in `t` at or after `i`. */
  function CloseFrom(t: string, i: nat): (r: Option<nat>)
    requires i <= |t|
    ensures r.Some? ==> i <= r.value < |t| && t[r.value] == '}'
    decreases |t| - i
  {
    if i == |t| then None
    else if t[i] == '}' then Some(i)
    else CloseFrom(t, i + 1)
  }

  /** Python's `str.format` with keyword arguments `fields`, for templates
      made of text and `{key}` replacement fields: each field is replaced by
      its value; an unknown key, an unclosed `{` or a lone `}` is an error. */
  function Format(t: string, fields: map<string, string>): Option<string>
    decreases |t|
  {
    if t == [] then Some([])
    else if t[0] == '}' then None
    else if t[0] == '{' then
      match CloseFrom(t, 1)
      case None => None
      case Some(j) =>
        var key := t[1..j];
        if key !in fields then None
        else Prepend(fields[key], Format(t[j + 1..], fields))
    else Prepend([t[0]], Format(t[1..], fields))
  }

  function Prepend(s: string, o: Option<string>): Option<string> {
    if o.Some? then Some(s + o.value) else None
  }

  /** Text without braces is copied. */
  lemma {:induction false} FormatText(lit: string, rest: string, fields: map<string, string>)
    requires NoBraces(lit)
    ensures Format(lit + rest, fields) == Prepend(lit, Format(rest, fields))
    decreases |lit|
  {
    if lit != [] {
      var t := lit + rest;
      assert t[0] == lit[0] && t[1..] == lit[1..] + rest;
      FormatText(lit[1..], rest, fields);
      assert Format(t, fields) == Prepend([lit[0]], Format(lit[1..] + rest, fields));
      var r := Format(rest, fields);
      if r.Some? {
        assert [lit[0]] + (lit[1..] + r.value) == lit + r.value;
      }
    } else {
      assert lit + rest == rest;
      if Format(rest, fields).Some? {
        assert lit + Format(rest, fields).value == Format(rest, fields).value;
      }
    }
  }

  /** A replacement field is replaced by its value. */
  lemma FormatField(key: string, rest: string, fields: map<string, string>)
    requires NoBraces(key) && key in fields
    ensures Format("{" + key + "}" + rest, fields) == Prepend(fields[key], Format(rest, fields))
  {
    var t := "{" + key + "}" + rest;
    CloseAfterKey(t, key, 1);
    assert t[1..|key| + 1] == key;
    assert t[|key| + 2..] == rest;
  }

  lemma {:induction false} CloseAfterKey(t: string, key: string, i: nat)
    requires 1 <= i <= |key| + 1 && |t| > |key| + 1
    requires t[1..|key| + 1] == key && t[|key| + 1] == '}' && NoBraces(key)
    ensures CloseFrom(t, i) == Some(|key| + 1)
    decreases |key| + 1 - i
  {
    if i <= |key| {
      assert t[i] == key[i - 1];
      CloseAfterKey(t, key, i + 1);
    }
  }

  lemma {:induction false} TextThen(p: Pattern, q: Pattern)
    ensures Text(Then(p, q)) == Text(p) + Text(q)
  {
    match p
    case End =>
    case Lit(s, rest) =>
      TextThen(rest, q);
      Assoc(s, Text(rest), Text(q));
    case Hole(k, rest) =>
      TextThen(rest, q);
      Assoc("{" + k + "}", Text(rest), Text(q));
  }

  /** Every text and key of the template is free of braces. */
  predicate Plain(p: Pattern) {
    match p
    case End => true
    case Lit(s, rest) => NoBraces(s) && Plain(rest)
    case Hole(k, rest) => NoBraces(k) && Plain(rest)
  }

  /** `format` on a template written without stray braces fills it in. */
  lemma {:induction false} FormatFills(p: Pattern, fields: map<string, string>)
    requires Plain(p) && Keys(p) <= fields.Keys
    ensures Format(Text(p), fields) == Some(Fill(p, fields))
  {
    match p
    case End =>
    case Lit(s, rest) =>
      FormatFills(rest, fields);
      FormatText(s, Text(rest), fields);
    case Hole(k, rest) =>
      FormatFills(rest, fields);
      FormatField(k, Text(rest), fields);
  }

  /** The keyword arguments `render` passes to `format`. A missing branch is
      formatted as Python formats `None`. */
  function Fields(user: string, project: string, branch: Option<string>, svgdir: string, name: string): map<string, string> {
    map["user" := user, "project" := project,
        "branch" := if branch.Some? then branch.value else "None",
        "svgdir" := svgdir, "name" := name]
  }

  /** The suffix of the image file the address points to. */
  function Extension(o: Options): string {
    if o.pngtrick then ".png" else ".svg"
  }

  /** A branch option Python treats as given: present and non-empty. */
  predicate Given(b: Option<string>) {
    b.Some? && b.value != ""
  }

  /** The branch in force when the document is rewritten. The checked-out
      branch `current` is read only when a branch is given; otherwise the
      old branch is the placeholder `NONE`. After a write-back to the working
      tree (no branch given, or the checked-out one) the branch becomes the
      old branch; a write-back to another branch leaves it as given. So a
      given branch is never changed, and a missing one turns into `NONE`
      exactly when images were written back. */
  function BranchInForce(o: Options, hasChanges: bool, current: string): (b: Option<string>)
    ensures Given(Normalize(o).branch) ==> b == Normalize(o).branch
    ensures !hasChanges ==> b == Normalize(o).branch
    ensures hasChanges && !Given(Normalize(o).branch) ==> b == Some("NONE")
  {
    var n := Normalize(o);
    var oldBranch := if Given(n.branch) then current else "NONE";
    if hasChanges && (!Given(n.branch) || n.branch.value == oldBranch) then Some(oldBranch) else n.branch
  }

  /** The image address of `render`: the template of the normalized options,
      filled in with the branch in force when the document is rewritten. */
  function Url(o: Options, user: string, project: string, hasChanges: bool, current: string, svgdir: string, name: string): Option<string> {
    Format(Template(Normalize(o)), Fields(user, project, BranchInForce(o, hasChanges, current), svgdir, name))
  }

  /** The template of the options, as text and fields. */
  function PatternOf(o: Options): Pattern {
    Then(if o.nocdn then LocalPath else CdnPath, Lit(Extension(o), End))
  }

  /** `pngtrick` turns the `.svg` template into the `.png` one. */
  lemma TemplateIsPattern(o: Options)
    ensures Template(o) == Text(PatternOf(o))
  {
    var base := if o.nocdn then LocalPath else CdnPath;
    TextThen(base, Lit(".svg", End));
    TextThen(base, Lit(Extension(o), End));
    assert Text(Lit(".svg", End)) == ".svg";
    assert Text(Lit(".png", End)) == ".png";
  }

  /** What the address is: `svgdir/name.svg` locally, the jsDelivr address
      of the file in the repository at the branch otherwise, with `.png` in
      place of `.svg` under `pngtrick`; under `htmlize` it is always local. */
  lemma UrlShape(o: Options, user: string, project: string, hasChanges: bool, current: string, svgdir: string, name: string)
    ensures var branch := BranchInForce(o, hasChanges, current);
            var b := if branch.Some? then branch.value else "None";
            Url(o, user, project, hasChanges, current, svgdir, name)
            == Some(if Normalize(o).nocdn then svgdir + "/" + name + Extension(o)
                    else "https://cdn.jsdelivr.net/gh/" + user + "/" + project + "@" + b + "/" + svgdir + "/" + name + Extension(o))
    ensures o.htmlize ==> Url(o, user, project, hasChanges, current, svgdir, name) == Some(svgdir + "/" + name + Extension(o))
  {
    var n := Normalize(o);
    var f := Fields(user, project, BranchInForce(o, hasChanges, current), svgdir, name);
    TemplateIsPattern(n);
    PatternPlain(n);
    FormatFills(PatternOf(n), f);
    FillPattern(n, f);
  }

  lemma PatternPlain(o: Options)
    ensures Plain(PatternOf(o)) && Keys(PatternOf(o)) <= {"user", "project", "branch", "svgdir", "name"}
  {
    var ext := Extension(o);
    var base := if o.nocdn then LocalPath else CdnPath;
    assert NoBraces(ext);
    BasePlain();
    ThenPlain(base, Lit(ext, End));
  }

  /** Both paths are plain, with the keys `render` passes. */
  lemma BasePlain()
    ensures Plain(LocalPath) && Keys(LocalPath) == {"svgdir", "name"}
    ensures Plain(CdnPath) && Keys(CdnPath) == {"user", "project", "branch", "svgdir", "name"}
  {
    assert NoBraces("name") && NoBraces("svgdir") && NoBraces("/");
    assert Plain(Hole("name", End));
    assert NoBraces("https://cdn.jsdelivr.net/gh/");
    assert NoBraces("user") && NoBraces("project") && NoBraces("branch") && NoBraces("@");
    var b := Hole("branch", Lit("/", LocalPath));
    assert Plain(b) && Keys(b) == {"branch", "svgdir", "name"};
    var p := Hole("project", Lit("@", b));
    assert Plain(p) && Keys(p) == {"project", "branch", "svgdir", "name"};
  }

  lemma {:induction false} ThenPlain(p: Pattern, q: Pattern)
    ensures Plain(Then(p, q)) == (Plain(p) && Plain(q))
    ensures Keys(Then(p, q)) == Keys(p) + Keys(q)
  {
    match p
    case End =>
    case Lit(_, rest) => ThenPlain(rest, q);
    case Hole(_, rest) => ThenPlain(rest, q);
  }

  lemma {:induction false} ThenFill(p: Pattern, q: Pattern, f: map<string, string>)
    requires Keys(p) <= f.Keys && Keys(q) <= f.Keys && Keys(Then(p, q)) <= f.Keys
    ensures Fill(Then(p, q), f) == Fill(p, f) + Fill(q, f)
  {
    match p
    case End =>
    case Lit(s, rest) =>
      ThenFill(rest, q, f);
      Assoc(s, Fill(rest, f), Fill(q, f));
    case Hole(k, rest) =>
      ThenFill(rest, q, f);
      Assoc(f[k], Fill(rest, f), Fill(q, f));
  }

  lemma Assoc(a: string, b: string, c: string)
    ensures a + (b + c) == (a + b) + c
  {
  }

  lemma FillPattern(o: Options, f: map<string, string>)
    requires {"user", "project", "branch", "svgdir", "name"} <= f.Keys
    ensures Keys(PatternOf(o)) <= f.Keys
    ensures Fill(PatternOf(o), f)
            == if o.nocdn then f["svgdir"] + "/" + f["name"] + Extension(o)
               else "https://cdn.jsdelivr.net/gh/" + f["user"] + "/" + f["project"] + "@" + f["branch"] + "/" + f["svgdir"] + "/" + f["name"] + Extension(o)
  {
    BasePlain();
    var ext := Extension(o);
    var base := if o.nocdn then LocalPath else CdnPath;
    ThenPlain(base, Lit(ext, End));
    ThenFill(base, Lit(ext, End), f);
    assert Fill(Lit(ext, End), f) == ext;
    FillBases(f);
  }

  /** What each path becomes once its holes are filled. */
  lemma FillBases(f: map<string, string>)
    requires {"user", "project", "branch", "svgdir", "name"} <= f.Keys
    ensures Keys(LocalPath) <= f.Keys && Keys(CdnPath) <= f.Keys
    ensures Fill(LocalPath, f) == f["svgdir"] + "/" + f["name"]
    ensures Fill(CdnPath, f)
            == "https://cdn.jsdelivr.net/gh/" + f["user"] + "/" + f["project"] + "@" + f["branch"] + "/" + f["svgdir"] + "/" + f["name"]
  {
    BasePlain();
    FillLocal(f);
    var l := f["svgdir"] + "/" + f["name"];
    var fb := FillBranch(f, l);
    var fp := FillProject(f, fb);
    FillUser(f, fp);
  }

  lemma FillLocal(f: map<string, string>)
    requires "svgdir" in f && "name" in f
    ensures Keys(LocalPath) <= f.Keys
    ensures Fill(LocalPath, f) == f["svgdir"] + "/" + f["name"]
  {
    assert Fill(Hole("name", End), f) == f["name"];
  }

  lemma FillBranch(f: map<string, string>, l: string) returns (fb: string)
    requires Keys(LocalPath) <= f.Keys && "branch" in f && Fill(LocalPath, f) == l
    ensures Keys(Hole("branch", Lit("/", LocalPath))) <= f.Keys
    ensures fb == f["branch"] + "/" + l && Fill(Hole("branch", Lit("/", LocalPath)), f) == fb
  {
    fb := f["branch"] + "/" + l;
  }

  lemma FillProject(f: map<string, string>, fb: string) returns (fp: string)
    requires Keys(Hole("branch", Lit("/", LocalPath))) <= f.Keys && "project" in f
    requires Fill(Hole("branch", Lit("/", LocalPath)), f) == fb
    ensures Keys(Hole("project", Lit("@", Hole("branch", Lit("/", LocalPath))))) <= f.Keys
    ensures fp == f["project"] + "@" + fb
    ensures Fill(Hole("project", Lit("@", Hole("branch", Lit("/", LocalPath)))), f) == fp
  {
    fp := f["project"] + "@" + fb;
  }

  lemma FillUser(f: map<string, string>, fp: string)
    requires Keys(Hole("project", Lit("@", Hole("branch", Lit("/", LocalPath))))) <= f.Keys && "user" in f
    requires Fill(Hole("project", Lit("@", Hole("branch", Lit("/", LocalPath)))), f) == fp
    ensures Keys(CdnPath) <= f.Keys
    ensures Fill(CdnPath, f) == "https://cdn.jsdelivr.net/gh/" + (f["user"] + "/" + fp)
  {
    var p := Hole("project", Lit("@", Hole("branch", Lit("/", LocalPath))));
    var u := Hole("user", Lit("/", p));
    assert Fill(Lit("/", p), f) == "/" + fp;
    assert Fill(u, f) == f["user"] + ("/" + fp);
    assert f["user"] + ("/" + fp) == f["user"] + "/" + fp;
  }
}
