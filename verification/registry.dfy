/** The macro registry: the set of known macro names (`sugarMacros`) and the
    entry of each macro (`allMacros`), the built-in tables, registration of
    user-script definitions and the saved overrides.

    The registering functions carry no postconditions of their own: the
    built-in tables are literal, and the solver evaluates registration over
    them eagerly, so what each one does is stated by a lemma per name. */
module Registry {
  import opened Wrappers
  import opened JsStrings
  import opened Diagnostics
  import opened Readings

  /** A context a sub-tag may appear in: the enclosing macro, whether the
      enclosing macro's sub-tags come in order, and whether this sub-tag is
      the last in the macro's list. */
  datatype Context = Context(main: string, ordered: bool, last: bool)

  /** An `allMacros` entry. The empty `replacend` stands for an absent one,
      as JavaScript truthiness reads it. The empty `ctx` stands for an absent
      one too; no entry the code itself builds has an empty `ctx` array. */
  datatype Macro = Macro(closed: bool, replacend: string, ctx: seq<Context>)

  datatype Registry = Registry(known: set<string>, macros: map<string, Macro>)

  const Empty: Registry := Registry({}, map[])

  /** `allMacros[name]` read as an own property. */
  function Lookup(r: Registry, name: string): (m: Option<Macro>)
    ensures m.Some? <==> name in r.macros
    ensures m.Some? ==> m.value == r.macros[name]
  {
    if name in r.macros then Some(r.macros[name]) else None
  }

  function SetOf(names: seq<string>): (s: set<string>)
    ensures forall n :: n in s <==> n in names
  {
    set n | n in names
  }

  /** `addSimpleMacro(name, closed)`. */
  function AddSimpleMacro(r: Registry, name: string, closed: bool): Registry {
    Registry(r.known + {name}, r.macros[name := Macro(closed, "", [])])
  }

  /** `addSimpleMacro` makes the name known and replaces its entry by a fresh
      one; no other entry changes. */
  lemma SimpleMacroSpec(r: Registry, name: string, closed: bool, n: string)
    ensures AddSimpleMacro(r, name, closed).known == r.known + {name}
    ensures Lookup(AddSimpleMacro(r, name, closed), n)
      == if n == name then Some(Macro(closed, "", [])) else Lookup(r, n)
  {
  }

  /** `addDeprecatedEndMacro(name)`. */
  function AddDeprecatedEndMacro(r: Registry, name: string): Registry {
    // `name.substring(3)` is empty for a name shorter than that
    var rest := if |name| >= 3 then name[3..] else "";
    Registry(r.known + {name}, r.macros[name := Macro(false, rest, [])])
  }

  /** `addDeprecatedEndMacro` gives the name an unclosed entry standing for
      the close of the macro named after its first three characters. */
  lemma DeprecatedEndSpec(r: Registry, name: string, n: string)
    requires |name| >= 3
    ensures AddDeprecatedEndMacro(r, name).known == r.known + {name}
    ensures Lookup(AddDeprecatedEndMacro(r, name), n)
      == if n == name then Some(Macro(false, name[3..], [])) else Lookup(r, n)
  {
  }

  /** The entry a sub-tag's context is appended to: its own, or a fresh one. */
  function SubBase(r: Registry, sub: string): Macro {
    if sub in r.macros then r.macros[sub] else Macro(false, "", [])
  }

  /** One round of the loop of `addComplexMacro`. */
  function AddContext(r: Registry, sub: string, c: Context): Registry {
    var m := SubBase(r, sub);
    Registry(r.known + {sub}, r.macros[sub := m.(ctx := m.ctx + [c])])
  }

  /** The loop of `addComplexMacro` over `subs[i..]`. */
  function AddSubs(r: Registry, name: string, subs: seq<string>, ordered: bool, i: nat): Registry
    requires i <= |subs|
    decreases |subs| - i
  {
    if i == |subs| then r
    else AddSubs(AddContext(r, subs[i], Context(name, ordered, subs[i] == subs[|subs| - 1])), name, subs, ordered, i + 1)
  }

  /** `addComplexMacro(name, subs, ordered)`. */
  function AddComplexMacro(r: Registry, name: string, subs: seq<string>, ordered: bool): Registry {
    AddSubs(Registry(r.known + {name}, r.macros[name := Macro(true, "", [])]), name, subs, ordered, 0)
  }

  lemma {:induction false} AddSubsOthers(r: Registry, name: string, subs: seq<string>, ordered: bool, i: nat, n: string)
    requires i <= |subs| && n !in subs[i..]
    ensures Lookup(AddSubs(r, name, subs, ordered, i), n) == Lookup(r, n)
    decreases |subs| - i
  {
    if i < |subs| {
      assert subs[i..] == [subs[i]] + subs[i + 1..];
      AddSubsOthers(AddContext(r, subs[i], Context(name, ordered, subs[i] == subs[|subs| - 1])), name, subs, ordered, i + 1, n);
    }
  }

  lemma {:induction false} AddSubsKnown(r: Registry, name: string, subs: seq<string>, ordered: bool, i: nat)
    requires i <= |subs|
    ensures AddSubs(r, name, subs, ordered, i).known == r.known + SetOf(subs[i..])
    decreases |subs| - i
  {
    if i < |subs| {
      AddSubsKnown(AddContext(r, subs[i], Context(name, ordered, subs[i] == subs[|subs| - 1])), name, subs, ordered, i + 1);
      assert subs[i..] == [subs[i]] + subs[i + 1..];
    }
  }

  /** `addComplexMacro` makes the macro and all its sub-tags known, gives the
      macro a fresh closed entry (replacing any it had) unless it is its own
      sub-tag, and leaves every name it does not mention alone. */
  lemma ComplexMacroSpec(r: Registry, name: string, subs: seq<string>, ordered: bool, n: string)
    ensures AddComplexMacro(r, name, subs, ordered).known == r.known + {name} + SetOf(subs)
    ensures n != name && n !in subs ==> Lookup(AddComplexMacro(r, name, subs, ordered), n) == Lookup(r, n)
    ensures n == name && n !in subs ==> Lookup(AddComplexMacro(r, name, subs, ordered), n) == Some(Macro(true, "", []))
  {
    var r1 := Registry(r.known + {name}, r.macros[name := Macro(true, "", [])]);
    assert subs[0..] == subs;
    AddSubsKnown(r1, name, subs, ordered, 0);
    if n !in subs {
      AddSubsOthers(r1, name, subs, ordered, 0, n);
    }
  }

  /** `n` is listed at most once in `subs`. */
  predicate OnceIn(subs: seq<string>, n: string) {
    forall a, b :: 0 <= a < b < |subs| ==> subs[a] != n || subs[b] != n
  }

  /** A sub-tag listed once, and not the macro itself, keeps its entry and
      gains exactly one context: this macro, its order, and whether it is the
      list's last sub-tag. */
  lemma ComplexAppendsContext(r: Registry, name: string, subs: seq<string>, ordered: bool, n: string)
    requires n in subs && n != name && OnceIn(subs, n)
    ensures var base := SubBase(r, n);
      Lookup(AddComplexMacro(r, name, subs, ordered), n)
        == Some(base.(ctx := base.ctx + [Context(name, ordered, n == subs[|subs| - 1])]))
  {
    var r1 := Registry(r.known + {name}, r.macros[name := Macro(true, "", [])]);
    assert SubBase(r1, n) == SubBase(r, n);
    var i :| 0 <= i < |subs| && subs[i] == n;
    AddSubsAt(r1, name, subs, ordered, 0, i);
  }

  lemma {:induction false} AddSubsAt(r: Registry, name: string, subs: seq<string>, ordered: bool, k: nat, i: nat)
    requires k <= i < |subs| && OnceIn(subs, subs[i])
    ensures var base := SubBase(r, subs[i]);
      Lookup(AddSubs(r, name, subs, ordered, k), subs[i])
        == Some(base.(ctx := base.ctx + [Context(name, ordered, subs[i] == subs[|subs| - 1])]))
    decreases |subs| - k
  {
    var sub := subs[k];
    var r1 := AddContext(r, sub, Context(name, ordered, sub == subs[|subs| - 1]));
    if k == i {
      assert forall b :: i < b < |subs| ==> subs[b] != subs[i];
      assert subs[i] !in subs[i + 1..];
      AddSubsOthers(r1, name, subs, ordered, k + 1, subs[i]);
    } else {
      assert subs[k] != subs[i];
      assert SubBase(r1, subs[i]) == SubBase(r, subs[i]);
      AddSubsAt(r1, name, subs, ordered, k + 1, i);
    }
  }

  // ---------------------------------------------------------------------
  // Built-in tables

  const SimpleClosed: seq<string> := [
    "capture", "click", "do", "done", "script", "nobr", "silent", "type", "button", "link",
    "linkappend", "linkprepend", "linkreplace", "append", "prepend", "replace", "widget",
    "display", "forget", "remember", "setplaylist", "silently", "stopallaudio"]

  /** The complex table as written: the sub-tag `"optionsfrom "` of `cycle`
      and `listbox` carries a trailing space. */
  const Complex: seq<(string, seq<string>, bool)> := [
    ("if", ["elseif", "else"], true), ("switch", ["case", "default"], true),
    ("for", ["break", "continue"], false), ("repeat", ["stop"], false),
    ("cycle", ["option", "optionsfrom "], false), ("listbox", ["option", "optionsfrom "], false),
    ("timed", ["next"], false), ("createaudiogroup", ["track"], false),
    ("createplaylist", ["track"], false)]

  /** The complex table with the sub-tag spelt as `tagNameAt` can read it. */
  const ComplexIntended: seq<(string, seq<string>, bool)> := [
    ("if", ["elseif", "else"], true), ("switch", ["case", "default"], true),
    ("for", ["break", "continue"], false), ("repeat", ["stop"], false),
    ("cycle", ["option", "optionsfrom"], false), ("listbox", ["option", "optionsfrom"], false),
    ("timed", ["next"], false), ("createaudiogroup", ["track"], false),
    ("createplaylist", ["track"], false)]

  const Unclosed: seq<string> := [
    "set", "unset", "run", "=", "-", "include", "print", "checkbox", "radiobutton", "textarea",
    "textbox", "numberbox", "actions", "back", "choice", "return", "addclass",
    "copy", "remove", "removeclass", "toggleclass", "audio", "cacheaudio", "playlist",
    "masteraudio", "removeplaylist", "waitforaudio", "removeaudiogroup", "redo", "goto"]

  const DeprecatedEnds: seq<string> := [
    "endclick", "endif", "endfor", "endnobr", "endscript", "endsilently", "endbutton",
    "endappend", "endprepend", "endreplace", "endwidget"]

  function AddAllSimple(r: Registry, names: seq<string>, closed: bool): Registry
    decreases |names|
  {
    if |names| == 0 then r else AddAllSimple(AddSimpleMacro(r, names[0], closed), names[1..], closed)
  }

  function AddAllDeprecatedEnds(r: Registry, names: seq<string>): Registry
    decreases |names|
  {
    if |names| == 0 then r else AddAllDeprecatedEnds(AddDeprecatedEndMacro(r, names[0]), names[1..])
  }

  function AddAllComplex(r: Registry, es: seq<(string, seq<string>, bool)>): Registry
    decreases |es|
  {
    if |es| == 0 then r else AddAllComplex(AddComplexMacro(r, es[0].0, es[0].1, es[0].2), es[1..])
  }

  /** Loading a list of simple macros: a listed name gets the fresh entry,
      any other keeps its own. */
  lemma {:induction false} AllSimpleSpec(r: Registry, names: seq<string>, closed: bool, n: string)
    ensures Lookup(AddAllSimple(r, names, closed), n)
      == if n in names then Some(Macro(closed, "", [])) else Lookup(r, n)
    decreases |names|
  {
    if |names| > 0 {
      var r1 := AddSimpleMacro(r, names[0], closed);
      SimpleMacroSpec(r, names[0], closed, n);
      AllSimpleSpec(r1, names[1..], closed, n);
      assert names == [names[0]] + names[1..];
    }
  }

  /** Loading a list of deprecated ends: a listed name stands for the close
      of the macro named after `end`, any other keeps its entry. */
  lemma {:induction false} AllEndsSpec(r: Registry, names: seq<string>, n: string)
    requires forall k :: 0 <= k < |names| ==> |names[k]| >= 3
    ensures Lookup(AddAllDeprecatedEnds(r, names), n)
      == if n in names then Some(Macro(false, n[3..], [])) else Lookup(r, n)
    decreases |names|
  {
    if |names| > 0 {
      var r1 := AddDeprecatedEndMacro(r, names[0]);
      DeprecatedEndSpec(r, names[0], n);
      AllEndsSpec(r1, names[1..], n);
      assert names == [names[0]] + names[1..];
    }
  }

  /** Whether a table of complex macros mentions `n`, as parent or sub-tag. */
  predicate Mentions(es: seq<(string, seq<string>, bool)>, n: string)
    decreases |es|
  {
    |es| > 0 && (es[0].0 == n || n in es[0].1 || Mentions(es[1..], n))
  }

  lemma {:induction false} AllComplexOthers(r: Registry, es: seq<(string, seq<string>, bool)>, n: string)
    requires !Mentions(es, n)
    ensures Lookup(AddAllComplex(r, es), n) == Lookup(r, n)
    decreases |es|
  {
    if |es| > 0 {
      ComplexMacroSpec(r, es[0].0, es[0].1, es[0].2, n);
      AllComplexOthers(AddComplexMacro(r, es[0].0, es[0].1, es[0].2), es[1..], n);
    }
  }

  /** The context one complex-table entry gives the sub-tag `n`, if it lists it. */
  function EntryContexts(e: (string, seq<string>, bool), n: string): seq<Context> {
    if n in e.1 then [Context(e.0, e.2, n == e.1[|e.1| - 1])] else []
  }

  /** The contexts a table of complex macros gives the sub-tag `n`, one per
      entry that lists it. */
  function ContextsFor(es: seq<(string, seq<string>, bool)>, n: string): seq<Context>
    decreases |es|
  {
    if |es| == 0 then [] else EntryContexts(es[0], n) + ContextsFor(es[1..], n)
  }

  /** `n` is not the entry's parent and is listed at most once in it. */
  predicate SubOnlyIn(e: (string, seq<string>, bool), n: string) {
    e.0 != n && OnceIn(e.1, n)
  }

  /** `n` is never a parent in the table and is listed at most once per entry. */
  predicate SubOnly(es: seq<(string, seq<string>, bool)>, n: string)
    decreases |es|
  {
    |es| == 0 || (SubOnlyIn(es[0], n) && SubOnly(es[1..], n))
  }

  /** One entry of a complex table appends its context for `n`, if any. */
  lemma EntryStep(r: Registry, e: (string, seq<string>, bool), n: string)
    requires SubOnlyIn(e, n)
    ensures var r1 := AddComplexMacro(r, e.0, e.1, e.2);
      && SubBase(r1, n) == SubBase(r, n).(ctx := SubBase(r, n).ctx + EntryContexts(e, n))
      && (n in e.1 ==> n in r1.macros)
      && (n !in e.1 ==> Lookup(r1, n) == Lookup(r, n))
  {
    if n in e.1 {
      ComplexAppendsContext(r, e.0, e.1, e.2, n);
    } else {
      ComplexMacroSpec(r, e.0, e.1, e.2, n);
      assert SubBase(r, n).ctx + [] == SubBase(r, n).ctx;
    }
  }

  /** Loading a complex table gives a sub-tag exactly the contexts of the
      entries listing it, in table order, after those it already had. */
  lemma {:induction false} ComplexTableContexts(r: Registry, es: seq<(string, seq<string>, bool)>, n: string)
    requires SubOnly(es, n) && Mentions(es, n)
    ensures Lookup(AddAllComplex(r, es), n)
      == Some(SubBase(r, n).(ctx := SubBase(r, n).ctx + ContextsFor(es, n)))
    decreases |es|
  {
    var r1 := AddComplexMacro(r, es[0].0, es[0].1, es[0].2);
    var rest := es[1..];
    var base := SubBase(r, n);
    var mine := EntryContexts(es[0], n);
    assert AddAllComplex(r, es) == AddAllComplex(r1, rest);
    assert ContextsFor(es, n) == mine + ContextsFor(rest, n);
    EntryStep(r, es[0], n);
    var b1 := SubBase(r1, n);
    if Mentions(rest, n) {
      ComplexTableContexts(r1, rest, n);
      var tail := ContextsFor(rest, n);
      assert b1.ctx + tail == base.ctx + (mine + tail);
    } else {
      NoContextsUnmentioned(rest, n);
      AllComplexOthers(r1, rest, n);
      assert n in es[0].1;
      assert mine + [] == mine;
    }
  }

  lemma {:induction false} NoContextsUnmentioned(es: seq<(string, seq<string>, bool)>, n: string)
    requires !Mentions(es, n)
    ensures ContextsFor(es, n) == []
    decreases |es|
  {
    if |es| > 0 {
      NoContextsUnmentioned(es[1..], n);
    }
  }

  /** The registry the built-in tables give, in the order they are loaded:
      simple closed macros, complex macros, unclosed macros, deprecated ends. */
  function LoadTables(simple: seq<string>, complex: seq<(string, seq<string>, bool)>,
                      unclosed: seq<string>, ends: seq<string>): Registry {
    AddAllDeprecatedEnds(AddAllSimple(AddAllComplex(AddAllSimple(Empty, simple, true), complex), unclosed, false), ends)
  }

  /** The built-in registry as the source loads it. */
  function BuiltIns(): Registry {
    LoadTables(SimpleClosed, Complex, Unclosed, DeprecatedEnds)
  }

  /** The built-in registry with the `optionsfrom` sub-tag spelt without the
      trailing space; the rest of the model uses this one. */
  function BuiltInsIntended(): Registry {
    LoadTables(SimpleClosed, ComplexIntended, Unclosed, DeprecatedEnds)
  }

  /** A deprecated end stands for the close of the macro named after `end`. */
  lemma TablesEndAlias(simple: seq<string>, complex: seq<(string, seq<string>, bool)>,
                       unclosed: seq<string>, ends: seq<string>, n: string)
    requires forall k :: 0 <= k < |ends| ==> |ends[k]| >= 3
    requires n in ends
    ensures Lookup(LoadTables(simple, complex, unclosed, ends), n) == Some(Macro(false, n[3..], []))
  {
    AllEndsSpec(AddAllSimple(AddAllComplex(AddAllSimple(Empty, simple, true), complex), unclosed, false), ends, n);
  }

  /** A name no table mentions has no entry. */
  lemma TablesUnmentioned(simple: seq<string>, complex: seq<(string, seq<string>, bool)>,
                          unclosed: seq<string>, ends: seq<string>, n: string)
    requires forall k :: 0 <= k < |ends| ==> |ends[k]| >= 3
    requires n !in simple && !Mentions(complex, n) && n !in unclosed && n !in ends
    ensures Lookup(LoadTables(simple, complex, unclosed, ends), n) == None
  {
    var r1 := AddAllSimple(Empty, simple, true);
    var r2 := AddAllComplex(r1, complex);
    var r3 := AddAllSimple(r2, unclosed, false);
    AllSimpleSpec(Empty, simple, true, n);
    AllComplexOthers(r1, complex, n);
    AllSimpleSpec(r2, unclosed, false, n);
    AllEndsSpec(r3, ends, n);
  }

  /** A sub-tag only the complex table mentions ends up with an unclosed
      entry carrying exactly the table's contexts for it. */
  lemma TablesSubTag(simple: seq<string>, complex: seq<(string, seq<string>, bool)>,
                     unclosed: seq<string>, ends: seq<string>, n: string)
    requires forall k :: 0 <= k < |ends| ==> |ends[k]| >= 3
    requires n !in simple && n !in unclosed && n !in ends
    requires SubOnly(complex, n) && Mentions(complex, n)
    ensures Lookup(LoadTables(simple, complex, unclosed, ends), n)
      == Some(Macro(false, "", ContextsFor(complex, n)))
  {
    var r1 := AddAllSimple(Empty, simple, true);
    var r2 := AddAllComplex(r1, complex);
    var r3 := AddAllSimple(r2, unclosed, false);
    AllSimpleSpec(Empty, simple, true, n);
    ComplexTableContexts(r1, complex, n);
    AllSimpleSpec(r2, unclosed, false, n);
    AllEndsSpec(r3, ends, n);
    assert SubBase(r1, n) == Macro(false, "", []);
    assert [] + ContextsFor(complex, n) == ContextsFor(complex, n);
  }

  // Facts about the literal tables, proved apart from any registry built
  // from them (the solver unfolds such a registry eagerly).

  lemma EndifTarget()
    ensures "endif"[3..] == "if"
  {
  }

  lemma OptionsFromUnlisted()
    ensures "optionsfrom" !in SimpleClosed && "optionsfrom" !in Unclosed && "optionsfrom" !in DeprecatedEnds
  {
  }

  lemma SpacedOptionsFromUnlisted()
    ensures "optionsfrom " !in SimpleClosed && "optionsfrom " !in Unclosed && "optionsfrom " !in DeprecatedEnds
  {
  }

  lemma ComplexOptionsFrom()
    ensures !Mentions(Complex, "optionsfrom")
    ensures SubOnly(Complex, "optionsfrom ") && Mentions(Complex, "optionsfrom ")
  {
  }

  lemma ComplexOptionsFromContexts()
    ensures ContextsFor(Complex, "optionsfrom ") == [Context("cycle", false, true), Context("listbox", false, true)]
  {
  }

  lemma IntendedOptionsFrom()
    ensures SubOnly(ComplexIntended, "optionsfrom") && Mentions(ComplexIntended, "optionsfrom")
    ensures ContextsFor(ComplexIntended, "optionsfrom") == [Context("cycle", false, true), Context("listbox", false, true)]
  {
  }

  lemma EndsLongEnough()
    ensures forall k :: 0 <= k < |DeprecatedEnds| ==> |DeprecatedEnds[k]| >= 3
    ensures "endif" in DeprecatedEnds
  {
  }

  /** `<<endif>>` stands for `<</if>>`, as every deprecated end stands for
      the close of the macro named after `end`. */
  lemma BuiltInEndifAlias()
    ensures Lookup(BuiltIns(), "endif") == Some(Macro(false, "if", []))
  {
    EndifTarget();
    EndsLongEnough();
    TablesEndAlias(SimpleClosed, Complex, Unclosed, DeprecatedEnds, "endif");
  }

  /** As loaded, `optionsfrom` has no entry (only `"optionsfrom "` has one),
      so a name read by `tagNameAt` never finds it. */
  lemma OptionsFromAsWritten()
    ensures Lookup(BuiltIns(), "optionsfrom") == None
  {
    OptionsFromUnlisted();
    ComplexOptionsFrom();
    EndsLongEnough();
    TablesUnmentioned(SimpleClosed, Complex, Unclosed, DeprecatedEnds, "optionsfrom");
  }

  /** The entry the table does give, under the name with the trailing space. */
  lemma OptionsFromSpaced()
    ensures Lookup(BuiltIns(), "optionsfrom ") == Some(Macro(false, "", [
      Context("cycle", false, true), Context("listbox", false, true)]))
  {
    SpacedOptionsFromUnlisted();
    ComplexOptionsFrom();
    ComplexOptionsFromContexts();
    EndsLongEnough();
    TablesSubTag(SimpleClosed, Complex, Unclosed, DeprecatedEnds, "optionsfrom ");
  }

  /** With the intended spelling, `optionsfrom` is the last sub-tag of both
      `cycle` and `listbox`. */
  lemma OptionsFromIntended()
    ensures Lookup(BuiltInsIntended(), "optionsfrom") == Some(Macro(false, "", [
      Context("cycle", false, true), Context("listbox", false, true)]))
  {
    OptionsFromUnlisted();
    IntendedOptionsFrom();
    EndsLongEnough();
    TablesSubTag(SimpleClosed, ComplexIntended, Unclosed, DeprecatedEnds, "optionsfrom");
  }

  // ---------------------------------------------------------------------
  // User-script definitions

  /** One `{ name, tags }` a `Macro.add(...)` call evaluated to, with the
      index of the call; `tags` is `None` when absent and `Some([])` when
      null or empty. */
  datatype Definition = Definition(name: string, tags: Option<seq<string>>, pos: nat)

  /** Registration of one evaluated definition: a conflict warning when the
      name is known, a complex macro when it has sub-tags, else a simple one
      that is closed exactly when `tags` was given at all. */
  function RegisterOne(r: Registry, d: Definition): (out: (Registry, Option<Diag>))
    ensures d.name in r.known ==> out == (r, Some(MacroConflict(d.name, d.pos)))
    ensures d.name !in r.known ==> out.1 == None && out.0.known >= r.known + {d.name}
    ensures d.name !in r.known && (d.tags.None? || |d.tags.value| == 0) ==>
      Lookup(out.0, d.name) == Some(Macro(d.tags.Some?, "", []))
    ensures d.name !in r.known && d.tags.Some? && d.name !in d.tags.value ==>
      Lookup(out.0, d.name) == Some(Macro(true, "", []))
  {
    if d.name in r.known then (r, Some(MacroConflict(d.name, d.pos)))
    else if d.tags.Some? && |d.tags.value| > 0 then
      ComplexMacroSpec(r, d.name, d.tags.value, false, d.name);
      (AddComplexMacro(r, d.name, d.tags.value, false), None)
    else
      SimpleMacroSpec(r, d.name, d.tags.Some?, d.name);
      (AddSimpleMacro(r, d.name, d.tags.Some?), None)
  }

  /** The definitions of the user script, registered in order; the warnings
      are filed under the user script. */
  function Register(r: Registry, defs: seq<Definition>): (out: (Registry, seq<Diag>))
    ensures out.0.known >= r.known
    ensures forall k :: 0 <= k < |defs| ==> defs[k].name in out.0.known
    ensures |out.1| <= |defs|
    ensures forall k :: 0 <= k < |out.1| ==> out.1[k].MacroConflict?
    decreases |defs|
  {
    if |defs| == 0 then (r, [])
    else
      var (r1, w) := RegisterOne(r, defs[0]);
      var (r2, ws) := Register(r1, defs[1..]);
      assert forall k :: 1 <= k < |defs| ==> defs[k] == defs[1..][k - 1];
      (r2, (if w.Some? then [w.value] else []) + ws)
  }

  /** A definition whose name is already known only warns: the registry is
      unchanged, and so it is for a whole list of such definitions. */
  lemma {:induction false} RegisterKnownOnlyWarns(r: Registry, defs: seq<Definition>)
    requires forall k :: 0 <= k < |defs| ==> defs[k].name in r.known
    ensures Register(r, defs).0 == r
    ensures |Register(r, defs).1| == |defs|
    ensures forall k :: 0 <= k < |defs| ==>
      Register(r, defs).1[k] == MacroConflict(defs[k].name, defs[k].pos)
    decreases |defs|
  {
    if |defs| > 0 {
      assert forall k :: 0 <= k < |defs| - 1 ==> defs[1..][k] == defs[k + 1];
      RegisterKnownOnlyWarns(r, defs[1..]);
    }
  }

  // ---------------------------------------------------------------------
  // Saved overrides

  /** `loadIgnoredMacros`: a saved entry is added under its name when
      `allMacros[name]` finds nothing there; the known names are not touched.
      As written that lookup also sees the properties every object inherits,
      so a saved `toString` or `constructor` is never added. */
  function LoadIgnoredMacros(r: Registry, saved: map<string, Macro>, reading: Reading): (r': Registry)
    ensures r'.known == r.known
    ensures forall n :: n in r.macros ==> Lookup(r', n) == Lookup(r, n)
    ensures forall n :: n !in r.macros ==>
      Lookup(r', n) == (if n in saved && Find(r, n, reading).None? then Some(saved[n]) else None)
    ensures reading == AsWritten ==> forall n :: n in ObjectPrototypeNames && n !in r.macros ==> Lookup(r', n).None?
    ensures reading == Intended ==> forall n :: n in saved && n !in r.macros ==> Lookup(r', n) == Some(saved[n])
  {
    var added := set n | n in saved.Keys && Find(r, n, reading).None?;
    Registry(r.known, map n | n in r.macros.Keys + added :: if n in r.macros then r.macros[n] else saved[n])
  }

  /** Loading the same overrides twice adds nothing the first load did not. */
  lemma LoadIgnoredIdempotent(r: Registry, saved: map<string, Macro>, reading: Reading)
    ensures LoadIgnoredMacros(LoadIgnoredMacros(r, saved, reading), saved, reading) == LoadIgnoredMacros(r, saved, reading)
  {
    var r1 := LoadIgnoredMacros(r, saved, reading);
    var r2 := LoadIgnoredMacros(r1, saved, reading);
    forall n ensures (n in r2.macros <==> n in r1.macros) && (n in r1.macros ==> r2.macros[n] == r1.macros[n]) {
      assert Lookup(r2, n) == Lookup(r1, n);
    }
    assert r2.macros == r1.macros;
  }

  // ---------------------------------------------------------------------
  // Lookup through the prototype chain

  /** The properties every JavaScript object inherits from `Object.prototype`. */
  const ObjectPrototypeNames: set<string> := {
    "constructor", "hasOwnProperty", "isPrototypeOf", "propertyIsEnumerable",
    "toLocaleString", "toString", "valueOf", "__proto__",
    "__defineGetter__", "__defineSetter__", "__lookupGetter__", "__lookupSetter__"}

  /** `allMacros[name]` as written: a name without an own entry that names an
      inherited property still finds a truthy value, which reads as an
      unclosed macro without `replacend` or `ctx`. */
  function ProtoLookup(r: Registry, name: string): (m: Option<Macro>)
    ensures name in r.macros ==> m == Lookup(r, name)
    ensures name !in r.macros ==> (m.Some? <==> name in ObjectPrototypeNames)
    ensures name !in r.macros && m.Some? ==> m.value == Macro(false, "", [])
  {
    if name in r.macros then Some(r.macros[name])
    else if name in ObjectPrototypeNames then Some(Macro(false, "", []))
    else None
  }

  /** `allMacros[name]` as the reading has it: through the prototype chain as
      written, as an own property when corrected. */
  function Find(r: Registry, name: string, reading: Reading): (m: Option<Macro>)
    ensures name in r.macros ==> m == Some(r.macros[name])
    ensures name !in r.macros ==> (m.Some? <==> reading == AsWritten && name in ObjectPrototypeNames)
  {
    if reading == AsWritten then ProtoLookup(r, name) else Lookup(r, name)
  }

  // ---------------------------------------------------------------------
  // The deprecated definition syntax

  /** `findAllCustomMacrosDeprecated` goes past its first test only when
      `charAt(index + 1)` of a `/macros` it found is white space. That
      character is the `m` of `/macros` itself, so the test always sends the
      loop on and the deprecated definitions are never parsed or registered. */
  lemma DeprecatedSyntaxUnreached(file: string, index: nat)
    requires MatchAt(file, "/macros", index)
    ensures CharAt(file, index + 1) == "m"
    ensures forall c :: c in CharAt(file, index + 1) ==> !IsJsSpace(c)
  {
    assert file[index + 1] == file[index..index + 7][1];
  }
}
