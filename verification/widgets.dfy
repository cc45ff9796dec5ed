/** Widgets: `findAllWidgets` registers the `<<widget "name">>` definitions of
    every passage tagged `widget`, and `checkInvalidWidgets` reports a widget
    definition in a passage without that tag. */
module Widgets {
  import opened Wrappers
  import opened JsStrings
  import opened Diagnostics
  import opened Registry
  import opened Names
  import opened Document

  /** `charAt(end).match(/[\s>]/)`: what may follow a widget's name. */
  predicate NameEndsAt(html: string, end: nat) {
    end < |html| && (IsJsSpace(html[end]) || html[end] == '>')
  }

  /** The errors `findAllWidgets` files, each at the `<<` of a definition. */
  predicate IsWidgetError(html: string, d: Diag) {
    match d
    case WidgetRedefinition(_, q) => PairAt(html, '<', q)
    case InvalidWidgetDefinition(q) => PairAt(html, '<', q)
    case _ => false
  }

  /** What the loop of `findAllWidgets` meets at the next `<<` from `index`. */
  datatype Found =
    | NoMore
    | NotWidget(next: nat)
    | Defines(name: string, at: nat, next: nat)
    | Invalid(at: nat, next: nat)

  /** One round of the loop: the next `<<`; a tag name other than `widget`
      resumes two characters on; a `widget` followed by a (quoted) name and
      then white space or `>` is a definition, resumed after the name and its
      closing quote; any other `widget` is invalid, resumed after `widget`. */
  function NextWidget(html: string, index: nat): (f: Found)
    requires index <= |html|
    ensures !f.NoMore? ==> index < f.next <= |html|
    ensures f.Defines? || f.Invalid? ==> PairAt(html, '<', f.at)
  {
    var p := PairFrom(html, '<', index);
    if p == -1 then NoMore
    else
      var nameAt := TagNameAt(html, p + 2);
      if nameAt.0 == nameAt.1 || html[nameAt.0..nameAt.1] != "widget" then NotWidget(p + 2)
      else
        var q := TagQNameAt(html, nameAt.1);
        var end := if q.Some? then q.value.end + (if q.value.quoted then 1 else 0) else 0;
        if q.Some? && NameEndsAt(html, end) then Defines(html[q.value.start..q.value.end], p, end)
        else Invalid(p, nameAt.1)
  }

  /** The loop of `findAllWidgets` from `index`: a definition registers its
      name as an unclosed simple macro unless the name is already known,
      which is an error instead. */
  function WidgetsFrom(html: string, reg: Registry, index: nat): (out: (Registry, seq<Diag>))
    requires index <= |html|
    ensures reg.known <= out.0.known
    ensures forall i :: 0 <= i < |out.1| ==> IsWidgetError(html, out.1[i])
    decreases |html| - index
  {
    match NextWidget(html, index)
    case NoMore => (reg, [])
    case NotWidget(next) => WidgetsFrom(html, reg, next)
    case Defines(name, p, next) =>
      if name in reg.known then
        var out := WidgetsFrom(html, reg, next);
        (out.0, [WidgetRedefinition(name, p)] + out.1)
      else WidgetsFrom(html, AddSimpleMacro(reg, name, false), next)
    case Invalid(p, next) =>
      var out := WidgetsFrom(html, reg, next);
      (out.0, [InvalidWidgetDefinition(p)] + out.1)
  }

  /** The widgets of one passage: `None` when its header has no `tags`
      attribute, for then `tags.split` throws a `TypeError` outside any
      `try` and the whole validation ends; nothing is done in a passage not
      tagged `widget`. */
  function FindAllWidgets(html: string, header: string, reg: Registry): (out: Option<(Registry, seq<Diag>)>)
    ensures out.None? <==> GetHTMLAttr(header, "tags").None?
    ensures out.Some? && !HasTag(GetHTMLAttr(header, "tags").value, "widget") ==> out.value == (reg, [])
  {
    match GetHTMLAttr(header, "tags")
    case None => None
    case Some(tags) =>
      if !HasTag(tags, "widget") then Some((reg, [])) else Some(WidgetsFrom(html, reg, 0))
  }

  /** Registering widgets leaves every known name's entry alone and gives
      every newly known name an unclosed simple entry; a name that stays
      unknown keeps its entry too. */
  lemma {:induction false} WidgetsFromSpec(html: string, reg: Registry, index: nat, n: string)
    requires index <= |html|
    ensures var out := WidgetsFrom(html, reg, index).0;
      && (n in reg.known || n !in out.known ==> Lookup(out, n) == Lookup(reg, n))
      && (n in out.known && n !in reg.known ==> Lookup(out, n) == Some(Macro(false, "", [])))
    decreases |html| - index
  {
    match NextWidget(html, index)
    case NoMore =>
    case NotWidget(next) => WidgetsFromSpec(html, reg, next, n);
    case Defines(name, p, next) =>
      if name in reg.known {
        WidgetsFromSpec(html, reg, next, n);
      } else {
        SimpleMacroSpec(reg, name, false, n);
        WidgetsFromSpec(html, AddSimpleMacro(reg, name, false), next, n);
      }
    case Invalid(p, next) => WidgetsFromSpec(html, reg, next, n);
  }

  /** A definition `<<widget "name">>` of a fresh name, alone in a passage,
      registers that name and files nothing. */
  lemma WidgetDefinitionRegisters(html: string, reg: Registry)
    requires html == "<<widget \"hello\">>"
    requires "hello" !in reg.known
    ensures WidgetsFrom(html, reg, 0) == (AddSimpleMacro(reg, "hello", false), [])
  {
    assert PairAt(html, '<', 0);
    assert html == "<<" + "" + "widget" + " \"hello\">>";
    TagNameRoundTrip("<<", "", "widget", " \"hello\">>");
    assert html == "<<widget" + " " + "\"" + "hello" + "\">>";
    QNameRoundTrip("<<widget", " ", "\"", "hello", "\">>");
    assert html[10..15] == "hello";
    assert PairFrom(html, '<', 16) == -1;
  }

  /** `checkInvalidWidgets`: `Some(UnhandledException)` when the header has
      no `tags` attribute (the `TypeError` is caught for the passage), an
      error at the first `<<widget ` of a passage not tagged `widget`, and
      nothing otherwise. */
  function CheckInvalidWidgets(html: string, header: string): (r: Option<Diag>)
    ensures GetHTMLAttr(header, "tags").None? ==> r == Some(UnhandledException)
    ensures r.Some? && r.value.WidgetWithoutTag? ==>
      && GetHTMLAttr(header, "tags").Some?
      && !HasTag(GetHTMLAttr(header, "tags").value, "widget")
      && MatchAt(html, "<<widget ", r.value.pos)
      && forall j :: 0 <= j < r.value.pos ==> !MatchAt(html, "<<widget ", j)
    ensures r.None? <==>
      GetHTMLAttr(header, "tags").Some? &&
      (HasTag(GetHTMLAttr(header, "tags").value, "widget") || IndexOf(html, "<<widget ", 0) == -1)
  {
    match GetHTMLAttr(header, "tags")
    case None => Some(UnhandledException)
    case Some(tags) =>
      if HasTag(tags, "widget") then None
      else
        IndexOfSpec(html, "<<widget ", 0);
        var index := IndexOf(html, "<<widget ", 0);
        if index != -1 then Some(WidgetWithoutTag(index)) else None
  }

  /** The two widget checks split the passages between them: a passage
      tagged `widget` has its definitions registered and is never reported,
      any other passage registers nothing. */
  lemma WidgetChecksComplement(html: string, header: string, reg: Registry)
    requires GetHTMLAttr(header, "tags").Some?
    ensures HasTag(GetHTMLAttr(header, "tags").value, "widget") ==> CheckInvalidWidgets(html, header).None?
    ensures !HasTag(GetHTMLAttr(header, "tags").value, "widget") ==> FindAllWidgets(html, header, reg) == Some((reg, []))
  {
  }
}
