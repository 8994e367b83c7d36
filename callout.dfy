/**
 * src/components/callout.tsx: the Callout component. It looks up the configuration of
 * its type (default 'note'), composes the header text and renders the pieces that
 * parseMarkdown makes of its children.
 */
module Callout {
  import opened JsStrings
  import opened Markdown

  datatype CalloutType = Tip | Note | Caution | Attention

  datatype CalloutConfig = CalloutConfig(title: string, color: string, border: string)

  /** `config[type]` */
  function Config(t: CalloutType): CalloutConfig {
    match t
    case Tip => CalloutConfig("Astuce", "bg-purple-900/50 text-purple-100",
                              "border-l-4 border-purple-400")
    case Note => CalloutConfig("Note",
                               "dark:bg-blue-900/50 bg-[#646cff14] text-[#454ce1] dark:text-blue-100",
                               "border-l-4 border-[#646cff]")
    case Caution => CalloutConfig("Caution",
                                  "bg-[#eab30824] dark:bg-yellow-900/50 text-[#915930] dark:text-yellow-100",
                                  "border-l-4 border-yellow-400")
    case Attention => CalloutConfig("Attention", "bg-red-900/50 text-red-100",
                                    "border-l-4 border-red-400")
  }

  /**
   * `props.type ?? 'note'` read as a key of `config`. Any other string finds no
   * configuration, and destructuring it throws: `None`.
   */
  function TypeOf(typeProp: Option<string>): (r: Option<CalloutType>)
    ensures typeProp.None? ==> r == Some(Note)
    ensures r.Some? ==> typeProp.None? || typeProp.value == TypeName(r.value)
    ensures typeProp.Some? && r.None? ==>
      typeProp.value !in {"tip", "note", "caution", "attention"}
  {
    match typeProp.GetOr("note")
    case "tip" => Some(Tip)
    case "note" => Some(Note)
    case "caution" => Some(Caution)
    case "attention" => Some(Attention)
    case _ => None
  }

  function TypeName(t: CalloutType): string {
    match t
    case Tip => "tip"
    case Note => "note"
    case Caution => "caution"
    case Attention => "attention"
  }

  /** The type names and the types correspond one to one. */
  lemma TypeNameRoundTrip(t: CalloutType)
    ensures TypeOf(Some(TypeName(t))) == Some(t)
  {
  }

  /** `title.toUpperCase().concat(props.subject ? ` : ${props.subject}` : '')` */
  function Header(title: string, subject: Option<string>): (r: string)
    ensures StartsWith(r, UpperStr(title))
    ensures subject.None? || subject.value == "" ==> r == UpperStr(title)
    ensures subject.Some? && subject.value != "" ==>
      r[|title|..] == " : " + subject.value
  {
    var suffix := if subject.Some? && subject.value != "" then " : " + subject.value else "";
    assert (UpperStr(title) + suffix)[..|title|] == UpperStr(title);
    UpperStr(title) + suffix
  }

  /**
   * What the `For` loop renders of one piece: a string verbatim, any other piece as
   * `<Dynamic component={comp.type}>{comp.children}</Dynamic>`.
   */
  datatype Rendered =
    | TextNode(text: string)
    | DynamicNode(component: Option<string>, children: Option<string>)

  function RenderPiece(p: Piece): (r: Rendered)
    ensures p.Str? <==> r.TextNode?
    ensures p.Str? ==> r.text == p.text
    ensures r.DynamicNode? ==> r.component.None? && r.children == Prop(p, "children")
  {
    if p.Str? then TextNode(p.text)
    // parseMarkdown's nodes carry `comp` but no `type` field
    else DynamicNode(Prop(p, "type"), Prop(p, "children"))
  }

  /** parseMarkdown never sets `type`, so no node has a component to render. */
  lemma NoPieceHasType(p: Piece)
    ensures Prop(p, "type") == None
  {
  }

  datatype CalloutView = CalloutView(containerClass: string, header: string,
                                     body: seq<Rendered>)

  /** `Callout(props)`, or `None` where it throws on an unknown type. */
  function Callout(typeProp: Option<string>, subject: Option<string>, children: string)
    : (v: Option<CalloutView>)
    ensures v.Some? <==> TypeOf(typeProp).Some?
    ensures v.Some? ==> |v.value.body| == |ParseMarkdownSpec(children)|
    ensures v.Some? ==> forall i :: 0 <= i < |v.value.body| ==>
      v.value.body[i] == RenderPiece(ParseMarkdownSpec(children)[i])
  {
    match TypeOf(typeProp)
    case None => None
    case Some(t) =>
      var c := Config(t);
      var pieces := ParseMarkdownSpec(children);
      Some(CalloutView(c.color + " " + c.border + " my-4 flex flex-col gap-2 rounded-r-md p-4",
                       Header(c.title, subject),
                       seq(|pieces|, i requires 0 <= i < |pieces| => RenderPiece(pieces[i]))))
  }

  /** Without a type the callout is a note: its header starts with 'NOTE'. */
  lemma DefaultIsNote(subject: Option<string>, children: string)
    ensures Callout(None, subject, children).Some?
    ensures StartsWith(Callout(None, subject, children).value.header, "NOTE")
  {
    assert UpperStr("Note") == "NOTE";
  }

  /** The per-type titles. */
  lemma Titles()
    ensures Config(Tip).title == "Astuce" && Config(Note).title == "Note"
    ensures Config(Caution).title == "Caution" && Config(Attention).title == "Attention"
  {
  }
}
