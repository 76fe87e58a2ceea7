/** The content of an element's shadow root, kept as the ordered list of
    top-level pieces the element's code put there, plus the markup each piece
    stands for. The browser's HTML parsing of `innerHTML` is not modelled:
    a piece is the text that was assigned, without the template literals'
    indentation and HTML comments. */
module Shadow {
  import opened Base

  datatype Node =
    /** `<link rel="stylesheet" href=...>` appended by a constructor. */
    | StylesheetLink(href: string)
    /** A `<style>` block; its CSS text is presentation only. */
    | InlineStyle
    /** The count heading and card wrapper one stock render adds. */
    | StockSection(count: nat, items: string)
    /** Markup assigned verbatim. */
    | Markup(html: string)

  const HeaderOpen: string := "<h3 class=\"numberOfStock\">Number of Stock Items : "
  const HeaderClose: string := "</h3><div class=\"stockItemsWrapper\">"
  const WrapperClose: string := "</div>"

  function Html(n: Node): (html: string)
  {
    match n
    case StylesheetLink(href) => "<link rel=\"stylesheet\" href=\"" + href + "\">"
    case InlineStyle => "<style></style>"
    case StockSection(count, items) => HeaderOpen + NatToString(count) + HeaderClose + items + WrapperClose
    case Markup(html) => html
  }

  /** The shadow root's markup: its pieces, in order, with no separator. */
  function Serialize(nodes: seq<Node>): (r: string)
    ensures |nodes| == 0 ==> r == ""
    decreases |nodes|
  {
    if |nodes| == 0 then "" else Serialize(nodes[..|nodes| - 1]) + Html(nodes[|nodes| - 1])
  }

  /** Appending a piece appends its markup and leaves the earlier markup as
      it was. */
  lemma SerializeAppend(nodes: seq<Node>, n: Node)
    ensures Serialize(nodes + [n]) == Serialize(nodes) + Html(n)
  {
    assert (nodes + [n])[..|nodes|] == nodes;
  }

  /** The heading of a stock section carries the count as a decimal numeral
      directly after the fixed heading text, and that numeral reads back as
      the count. */
  lemma SectionShowsCount(count: nat, items: string)
    ensures var h := Html(StockSection(count, items));
            var numeral := h[|HeaderOpen|..|HeaderOpen| + |NatToString(count)|];
            && h[..|HeaderOpen|] == HeaderOpen
            && (forall i :: 0 <= i < |numeral| ==> IsDigit(numeral[i]))
            && !IsDigit(h[|HeaderOpen| + |NatToString(count)|])
            && ParseDecimal(numeral) == count
  {
    var h := Html(StockSection(count, items));
    var n := NatToString(count);
    var tail := HeaderClose + items + WrapperClose;
    assert h == HeaderOpen + n + tail;
    assert h[..|HeaderOpen|] == HeaderOpen;
    assert h[|HeaderOpen|..|HeaderOpen| + |n|] == n;
    assert h[|HeaderOpen| + |n|] == tail[0] == HeaderClose[0] == '<';
    ParseNatToString(count);
  }
}
