/** The markup the builder produces, abstracted to the elements it creates
    itself plus opaque rendered content, and a mutable "soup" whose top-level
    children the builder inserts and appends in place. */
module Markup {

  datatype Node =
    /** `<progress value=… max=…>` */
    | Progress(value: int, max: int)
    /** `<a href=… class=…>text</a>` */
    | Anchor(href: string, cls: string, text: string)
    /** `<link rel=… href=…>` */
    | Link(rel: string, href: string)
    /** `<style>css</style>` */
    | Style(css: string)
    /** `<script src=…></script>` */
    | ExternalScript(src: string)
    /** `<script>code</script>` */
    | InlineScript(code: string)
    /** `<section id=…>children</section>` */
    | Section(id: string, children: seq<Node>)
    /** Markup produced by the markdown renderer or by a plugin, kept opaque. */
    | Rendered(markup: string)

  /** A BeautifulSoup document, seen through its sequence of top-level children. */
  class Soup {
    var nodes: seq<Node>

    /** Parsing markup into a soup yields its top-level children. */
    constructor (children: seq<Node>)
      ensures nodes == children
    {
      nodes := children;
    }

    /** `soup.insert(position, child)`, which (like `list.insert`) puts the child
        last when the position is past the end. */
    method Insert(position: nat, child: Node)
      modifies this
      ensures var p := if position <= |old(nodes)| then position else |old(nodes)|;
        nodes == old(nodes)[..p] + [child] + old(nodes)[p..]
    {
      var p := if position <= |nodes| then position else |nodes|;
      nodes := nodes[..p] + [child] + nodes[p..];
    }

    /** `soup.append(child)`. */
    method Append(child: Node)
      modifies this
      ensures nodes == old(nodes) + [child]
    {
      nodes := nodes + [child];
    }
  }
}
