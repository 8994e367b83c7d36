/**
 * src/tools/solid-mdx.tsx: the MDX component map. Modelled here are the heading
 * components h1 to h4, whose `id` is the slug of their text, and the Math component's
 * choice between display and inline rendering.
 */
module SolidMdx {
  import opened JsStrings
  import Utils

  /** The file's own `createSlug`: `text.toString().toLowerCase().replace(/\s+/g, '-')`. */
  function CreateSlug(text: string): string {
    Utils.CollapseSpace(LowerStr(text))
  }

  /** The local definition agrees with the one in src/lib/utils.ts on every input. */
  lemma CreateSlugAsInUtils(text: string)
    ensures CreateSlug(text) == Utils.CreateSlug(text)
  {
  }

  datatype HeadingLevel = H1 | H2 | H3 | H4

  datatype HeadingElement = HeadingElement(level: HeadingLevel, id: string, children: string)

  /** `h1` … `h4`: every level sets `id = createSlug(props.children)` and shows the text. */
  function Heading(level: HeadingLevel, children: string): (h: HeadingElement)
    ensures h.level == level && h.children == children
    ensures NoSpace(h.id)
    ensures NoSpace(children) ==> h.id == LowerStr(children)
  {
    Utils.SlugHasNoSpace(children);
    assert NoSpace(children) ==> CreateSlug(children) == LowerStr(children) by {
      if NoSpace(children) {
        Utils.SlugNoSpace(children);
      }
    }
    HeadingElement(level, CreateSlug(children), children)
  }

  /**
   * Two headings, of any levels, whose texts agree up to case get the same id:
   * the ids of a page are not made unique.
   */
  lemma SameTextSameId(l1: HeadingLevel, l2: HeadingLevel, a: string, b: string)
    requires LowerStr(a) == LowerStr(b)
    ensures Heading(l1, a).id == Heading(l2, b).id
  {
  }

  /** A heading id is its own slug, so linking to `#` + id finds the heading again. */
  lemma HeadingIdIsSlug(level: HeadingLevel, children: string)
    ensures CreateSlug(Heading(level, children).id) == Heading(level, children).id
  {
    Utils.SlugIdempotent(children);
  }

  // ---------------------------------------------------------------------------
  // Math({ children, block = false })

  datatype MathElement = MathElement(cls: string, displayMode: bool, source: string)

  function Math(children: string, block: Option<bool>): (m: MathElement)
    ensures m.cls == (if block == Some(true) then "math-display" else "math-inline")
    ensures m.displayMode <==> block == Some(true)
    ensures m.source == children
  {
    var b := block.GetOr(false);
    MathElement(if b then "math-display" else "math-inline", b, children)
  }

  /** The span's class and KaTeX's display mode always agree. */
  lemma MathClassAgreesWithMode(children: string, block: Option<bool>)
    ensures Math(children, block).cls == "math-display" <==> Math(children, block).displayMode
  {
  }
}
