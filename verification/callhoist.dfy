/** The call-in-condition check (`CallExpInIfChecker`): a call inside an `if` condition is
    hoisted into a fresh variable declared just before the `if`, and the call is replaced
    by the variable's name. Names are the configured prefix followed by a counter that
    every fix advances. */
module CallHoist {
  import opened Base
  import opened Lexer
  import opened Rewriter
  import opened Ast

  /** The options `VariablePrefix`, `Filter` (on the callee's name) and
      `CallReturnTypeFilter` (on the call's return type). */
  datatype Config = Config(prefix: string, filter: string, returnTypeFilter: string)

  /** The options when the configuration names none of them. */
  const Defaults := Config("conditionVariable", ".*", ".*")

  /** `llvm::Regex::match`, which is not part of this model: whether a pattern matches
      somewhere in a string. */
  type Matcher = (string, string) -> bool

  /** The two function-local `static` regexes: each takes the pattern of the first check
      that reaches it and keeps it for the rest of the process. */
  datatype Statics = Statics(calleeRegex: Option<string>, typeRegex: Option<string>)

  /** A matched call: its node, the callee's name and the call's return type as printed. */
  datatype Call = Call(node: Node, callee: string, returnType: string)

  /** A parent of the `if` in the AST: an `if` (with the id of its `else` branch, if any) or
      anything else. */
  datatype Parent = ParentIf(elseId: Option<nat>) | ParentOther

  /** A matched `if`: its node, the extent of its condition, whether it has an init
      statement, and its parents. */
  datatype IfSite = IfSite(node: Node, condBegin: nat, condEnd: nat, hasInit: bool, parents: seq<Parent>)

  /** The check's memory: the variable counter, the static regexes and the warnings. */
  datatype State = State(counter: nat, statics: Statics, diags: seq<Diag>)

  function Start(): State {
    State(0, Statics(None, None), [])
  }

  /** The `if` is the `else` branch of a parent `if`: an `else if`. */
  predicate IsElseIf(site: IfSite) {
    exists k :: 0 <= k < |site.parents| && site.parents[k] == ParentIf(Some(site.node.id))
  }

  /** The call lies within the condition's extent. */
  predicate InCondition(site: IfSite, call: Call) {
    site.condBegin <= call.node.begin && call.node.end <= site.condEnd
  }

  /** Where the declaration goes: as written, one character before the `if`; corrected,
      exactly where the `if` starts (see `DeclarationGluedAsWritten`). */
  function DeclarationAt(ifBegin: nat, asWritten: bool): nat {
    if asWritten then (if ifBegin > 0 then ifBegin - 1 else 0) else ifBegin
  }

  /** The declaration itself: the return type, the name, `=`, the call's text and `;`, then
      a line break. */
  function Declared(src: Source, call: Call, name: string): (d: string)
    ensures |d| >= 2 && d[|d| - 2..] == ";\n"
  {
    call.returnType + " " + name + " = " + src.SourceText(call.node.begin, call.node.end) + ";\n"
  }

  /** The inserted text. As written, the `if`'s indentation comes first and the declaration
      follows; corrected, the declaration comes first and the `if`'s indentation follows, so
      that the `if` keeps its indentation on the new line the declaration opens. */
  function Declaration(src: Source, site: IfSite, call: Call, name: string, asWritten: bool): (t: string)
    ensures asWritten ==> t == src.IndentationForLine(site.node.begin) + Declared(src, call, name)
    ensures !asWritten ==> t == Declared(src, call, name) + src.IndentationForLine(site.node.begin)
  {
    var indent := src.IndentationForLine(site.node.begin);
    if asWritten then indent + Declared(src, call, name) else Declared(src, call, name) + indent
  }

  /** The fixes for one call: the declaration inserted before the `if`, and the call's tokens
      replaced by the name. */
  function HoistFixes(src: Source, site: IfSite, call: Call, name: string, asWritten: bool): (fs: seq<Edit>)
    ensures |fs| == 2
    ensures fs[0] == Insert(DeclarationAt(site.node.begin, asWritten), Declaration(src, site, call, name, asWritten))
    ensures fs[1] == Replace(src.TokenRange(call.node.begin, call.node.end), name)
  {
    [ Insert(DeclarationAt(site.node.begin, asWritten), Declaration(src, site, call, name, asWritten)),
      Replace(src.TokenRange(call.node.begin, call.node.end), name) ]
  }

  /** The pattern a static regex holds once a check has reached it. */
  function Fix(r: Option<string>, pattern: string): string {
    if r.Some? then r.value else pattern
  }

  /** `check` on one (if, call) match.

      Nothing happens to a call outside the condition, in an `if` with an init statement or
      in an `else if`. Reaching the callee filter fixes its static pattern; a callee that
      does not match stops there. Reaching the type filter fixes that pattern; a type that
      does not match stops there. Otherwise the call gets a warning whose fixes declare
      the variable named by the prefix and the current counter, and the counter advances
      by one. A pattern once fixed never changes.

      `asWritten` chooses where the declaration goes: one character before the `if`, as the
      check is written, or where the `if` starts, as corrected. */
  function Check(src: Source, config: Config, matches: Matcher, st: State, site: IfSite, call: Call,
                 asWritten: bool): (r: State)
    ensures !InCondition(site, call) || site.hasInit || IsElseIf(site) ==> r == st
    ensures st.statics.calleeRegex.Some? ==> r.statics.calleeRegex == st.statics.calleeRegex
    ensures st.statics.typeRegex.Some? ==> r.statics.typeRegex == st.statics.typeRegex
    ensures r.statics.calleeRegex.Some? <==>
      st.statics.calleeRegex.Some? || (InCondition(site, call) && !site.hasInit && !IsElseIf(site))
    ensures r.counter != st.counter + 1 ==> r.diags == st.diags && r.counter == st.counter
    ensures r.counter == st.counter + 1 ==>
      r.diags == st.diags + [Diag(call.node.begin, HoistFixes(src, site, call, config.prefix + Decimal(st.counter), asWritten))]
    ensures r.counter == st.counter + 1 ==>
      && r.diags[|st.diags|].fixes[0].Insert?
      && r.diags[|st.diags|].fixes[0].at == (if asWritten && site.node.begin > 0 then site.node.begin - 1 else site.node.begin)
    ensures r.counter == st.counter + 1 <==>
      && InCondition(site, call) && !site.hasInit && !IsElseIf(site)
      && matches(Fix(st.statics.calleeRegex, config.filter), call.callee)
      && matches(Fix(st.statics.typeRegex, config.returnTypeFilter), call.returnType)
  {
    if !InCondition(site, call) || site.hasInit || IsElseIf(site) then st
    else
      var calleePattern := Fix(st.statics.calleeRegex, config.filter);
      var st1 := st.(statics := st.statics.(calleeRegex := Some(calleePattern)));
      if !matches(calleePattern, call.callee) then st1
      else
        var typePattern := Fix(st1.statics.typeRegex, config.returnTypeFilter);
        var st2 := st1.(statics := st1.statics.(typeRegex := Some(typePattern)));
        if !matches(typePattern, call.returnType) then st2
        else
          var name := config.prefix + Decimal(st.counter);
          st2.(counter := st.counter + 1,
               diags := st.diags + [Diag(call.node.begin, HoistFixes(src, site, call, name, asWritten))])
  }

  /** The variable a hoisting warning introduces: the replacement text of its second fix. */
  function NameOf(d: Diag): string
    requires |d.fixes| == 2 && d.fixes[1].Replace?
  {
    d.fixes[1].text
  }

  /** Every hoisting warning from `from` on names variable `prefix` + the counter value it
      was issued at, counting up from `base`. */
  ghost predicate NumberedFrom(diags: seq<Diag>, from: nat, prefix: string, base: nat) {
    forall i :: from <= i < |diags| ==>
      |diags[i].fixes| == 2 && diags[i].fixes[1].Replace? && NameOf(diags[i]) == prefix + Decimal(base + (i - from))
  }

  /** The checks of a translation unit, one match after the other. */
  function RunAll(src: Source, config: Config, matches: Matcher, st: State, ms: seq<(IfSite, Call)>,
                  asWritten: bool): (r: State)
    ensures |st.diags| <= |r.diags| && r.diags[..|st.diags|] == st.diags
    ensures r.counter - st.counter == |r.diags| - |st.diags|
    ensures NumberedFrom(r.diags, |st.diags|, config.prefix, st.counter)
    decreases |ms|
  {
    if ms == [] then st
    else
      var st1 := Check(src, config, matches, st, ms[0].0, ms[0].1, asWritten);
      var r := RunAll(src, config, matches, st1, ms[1..], asWritten);
      CheckNumbered(src, config, matches, st, ms[0].0, ms[0].1, asWritten);
      NumberedAfter(st.diags, st1.diags, r.diags, config.prefix, st.counter, st1.counter);
      r
  }

  /** One check issues at most one warning, named after the counter it was issued at. */
  lemma CheckNumbered(src: Source, config: Config, matches: Matcher, st: State, site: IfSite, call: Call,
                      asWritten: bool)
    ensures var r := Check(src, config, matches, st, site, call, asWritten);
      && |st.diags| <= |r.diags| && r.diags[..|st.diags|] == st.diags
      && r.counter - st.counter == |r.diags| - |st.diags|
      && NumberedFrom(r.diags, |st.diags|, config.prefix, st.counter)
  {
    var r := Check(src, config, matches, st, site, call, asWritten);
    if r.counter == st.counter + 1 {
      var d := Diag(call.node.begin, HoistFixes(src, site, call, config.prefix + Decimal(st.counter), asWritten));
      assert r.diags == st.diags + [d];
      assert r.diags[|st.diags|] == d;
    }
  }

  /** Numbered warnings from `a`'s end through `b`'s, then from `b`'s end on, are numbered
      from `a`'s end on. */
  lemma NumberedAfter(a: seq<Diag>, b: seq<Diag>, c: seq<Diag>, prefix: string, n: nat, m: nat)
    requires |a| <= |b| && b[..|a|] == a && m - n == |b| - |a|
    requires |b| <= |c| && c[..|b|] == b
    requires NumberedFrom(b, |a|, prefix, n) && NumberedFrom(c, |b|, prefix, m)
    ensures |a| <= |c| && c[..|a|] == a
    ensures NumberedFrom(c, |a|, prefix, n)
  {
    assert c[..|a|] == c[..|b|][..|a|];
    forall i | |a| <= i < |c|
      ensures |c[i].fixes| == 2 && c[i].fixes[1].Replace?
      ensures NameOf(c[i]) == prefix + Decimal(n + (i - |a|))
    {
      if i < |b| {
        assert c[i] == c[..|b|][i] == b[i];
      }
    }
  }

  /** No two hoisting warnings of a run introduce the same variable name. */
  lemma {:induction false} NamesDistinct(src: Source, config: Config, matches: Matcher, st: State,
                                         ms: seq<(IfSite, Call)>, asWritten: bool, i: nat, j: nat)
    requires var r := RunAll(src, config, matches, st, ms, asWritten); |st.diags| <= i < j < |r.diags|
    ensures var r := RunAll(src, config, matches, st, ms, asWritten); NameOf(r.diags[i]) != NameOf(r.diags[j])
  {
    var r := RunAll(src, config, matches, st, ms, asWritten);
    NamesDiffer(r.diags, |st.diags|, config.prefix, st.counter, i, j);
  }

  lemma NamesDiffer(diags: seq<Diag>, from: nat, prefix: string, base: nat, i: nat, j: nat)
    requires NumberedFrom(diags, from, prefix, base) && from <= i < j < |diags|
    ensures NameOf(diags[i]) != NameOf(diags[j])
  {
    var m, n := base + (i - from), base + (j - from);
    if NameOf(diags[i]) == NameOf(diags[j]) {
      SamePrefix(prefix, Decimal(m), Decimal(n));
      DecimalInjective(m, n);
    }
  }

  /** Names with the same prefix are equal only when their rests are. */
  lemma SamePrefix(p: string, a: string, b: string)
    requires p + a == p + b
    ensures a == b
  {
    assert a == (p + a)[|p|..] && b == (p + b)[|p|..];
  }

  /** Inserting `t` at `at` into `orig`. */
  lemma RenderInsert(orig: string, at: nat, t: string)
    requires at <= |orig|
    ensures Apply(orig, [Insert(at, t)]) == orig[..at] + t + orig[at..]
  {
    var e := Insert(at, t);
    assert [e][1..] == [];
    assert Apply(orig, [e]) == orig[0..at] + t + Render(orig, [], at, |orig|);
  }

  /** Corrected, everything before the `if`, including code on the `if`'s own line, stays
      before the declaration, and the declaration is followed by a line break, the `if`'s
      indentation and the `if`. */
  lemma {:induction false} DeclarationBeforeIf(src: Source, site: IfSite, call: Call, name: string)
    requires site.node.begin <= |src.text|
    ensures var at := site.node.begin;
      var out := Apply(src.text, [HoistFixes(src, site, call, name, false)[0]]);
      && out[..at] == src.text[..at]
      && out[at..] == Declared(src, call, name) + src.IndentationForLine(at) + src.text[at..]
  {
    var at := site.node.begin;
    var decl := Declaration(src, site, call, name, false);
    RenderInsert(src.text, at, decl);
    var out := Apply(src.text, [HoistFixes(src, site, call, name, false)[0]]);
    assert out == src.text[..at] + decl + src.text[at..];
    assert out[..at] == src.text[..at];
    assert out[at..] == decl + src.text[at..];
  }

  /** Corrected, an `if` that starts its line after its indentation gets the declaration on a
      line of its own just above it, both lines indented like the `if` was, and nothing
      before the `if`'s line changes. */
  lemma {:induction false} DeclarationOnOwnLine(src: Source, site: IfSite, call: Call, name: string)
    requires site.node.begin <= |src.text|
    requires src.LineStart(site.node.begin) + |src.IndentationForLine(site.node.begin)| == site.node.begin
    ensures var at := site.node.begin;
      var line, indent := src.LineStart(at), src.IndentationForLine(at);
      var out := Apply(src.text, [HoistFixes(src, site, call, name, false)[0]]);
      && (line == 0 || src.text[line - 1] == '\n')
      && out[..line] == src.text[..line]
      && out[line..] == indent + Declared(src, call, name) + indent + src.text[at..]
  {
    var at := site.node.begin;
    var line, indent := src.LineStart(at), src.IndentationForLine(at);
    var decl := Declaration(src, site, call, name, false);
    RenderInsert(src.text, at, decl);
    assert src.text[line..at] == indent;
    InsertAfter(src.text, line, at, decl);
  }

  /** Inserting `d` at `at` leaves the text before an earlier `line` alone. */
  lemma InsertAfter(t: string, line: nat, at: nat, d: string)
    requires line <= at <= |t|
    ensures var out := t[..at] + d + t[at..];
      out[..line] == t[..line] && out[line..] == t[line..at] + d + t[at..]
  {
    var out := t[..at] + d + t[at..];
    assert t[..at] == t[..line] + t[line..at];
    assert out == t[..line] + (t[line..at] + d + t[at..]);
  }

  /** The file `x;`, a line break, then an `if` at the start of the next line. */
  function GluedSource(): Source {
    Source("x;\nif (f()) {}", p => 0)
  }

  /** As written, the declaration for an unindented `if` lands at the end of the previous
      line, right after its `;`, and an empty line is left before the `if`. */
  lemma {:induction false} DeclarationGluedAsWritten(site: IfSite, call: Call, name: string)
    requires site.node.begin == 3
    ensures var src := GluedSource();
      && DeclarationAt(site.node.begin, true) == 2
      && Apply(src.text, [HoistFixes(src, site, call, name, true)[0]])
         == "x;" + Declared(src, call, name) + "\nif (f()) {}"
  {
    var src := GluedSource();
    assert src.text[2] == '\n' && src.text[3] == 'i';
    assert src.LineStart(3) == 3;
    assert src.IndentationForLine(3) == "";
    RenderInsert(src.text, 2, Declaration(src, site, call, name, true));
    assert src.text[..2] == "x;" && src.text[2..] == "\nif (f()) {}";
  }
}
