/** The `stock-fetcher` custom element of wc-stock-fetcher/wc-stock-fetcher.js:
    it builds a dealer's stock URL from its `dealer-id` attribute, renders the
    fetched stock as cards below a count heading, appending to whatever the
    shadow root already holds, and mirrors `primary-col` into the
    `--primaryCol` style property. Each callback is a function from the
    element's state (and, where a fetch happens, the network's answer) to the
    next state; fetching and rendering happen in one step. */
module StockElement {
  import opened Base
  import opened Fetch
  import opened Shadow

  const BaseUrl: string := "https://s3.ap-southeast-2.amazonaws.com/stock.publish"
  const UrlPrefix: string := BaseUrl + "/dealer_"
  const UrlSuffix: string := "/stock.json"
  const StylesheetHref: string := "./wc-stock-fetcher/wc-stock-fetcher.css"
  const Placeholder: string := "https://placehold.co/250x167/e1e1e1/bebebe?text=No%20Image&font=lato"
  const MissingDealerMessage: string := "Dealer ID not provided."

  const DealerIdAttr: string := "dealer-id"
  const PrimaryColAttr: string := "primary-col"
  const ObservedAttributes: seq<string> := [DealerIdAttr, PrimaryColAttr]

  /** The `images` property of a stock record: an array of image URLs, or
      anything else (missing, `null`, a string, ...). */
  datatype Images = NotAnArray | ImageArray(urls: seq<string>)

  /** One vehicle of the stock JSON. Every field other than `images` is the
      text its template interpolation prints. */
  datatype Stock = Stock(
    make: string,
    model: string,
    transmission: string,
    bodyType: string,
    colour: string,
    odometer: string,
    size: string,
    sizeOption: string,
    stockNumber: string,
    images: Images)

  datatype Feature = Feature(title: string, value: string)

  /** What one card shows, before it is written out as markup. */
  datatype Card = Card(heading: string, imageSrc: string, imageAlt: string, features: seq<Feature>)

  /** The feature labels, in card order. The last is the text the file
      holds: the UTF-8 bytes of `№` read back as Windows-1252, three
      characters, so a browser shows `Stock â„– `. */
  const FeatureLabels: seq<string> :=
    ["Transmission", "Body Type", "Color", "Kilometres", "Engine", "Stock \U{00E2}\U{201E}\U{2013} "]

  /** The element: its attributes, its shadow root's pieces, the value of its
      `--primaryCol` style property, and every URL string it has passed to
      `fetch`, oldest first. */
  datatype Element = Element(attrs: Attrs, shadow: seq<Node>, primaryCol: Option<string>, requests: seq<string>)

  /** The constructor: a shadow root holding only the stylesheet link. */
  function Construct(attrs: Attrs): (e: Element)
    ensures e.shadow == [StylesheetLink(StylesheetHref)]
    ensures e.attrs == attrs && e.requests == [] && e.primaryCol == None
  {
    Element(attrs, [StylesheetLink(StylesheetHref)], None, [])
  }

  // ---------------------------------------------------------------------------
  // URL

  /** The URL string of line 24: the fixed prefix, the id verbatim, the
      fixed suffix. */
  function DealerUrl(dealerId: string): (url: string)
    ensures |url| == |UrlPrefix| + |dealerId| + |UrlSuffix|
    ensures url[..|UrlPrefix|] == UrlPrefix
    ensures url[|UrlPrefix|..|UrlPrefix| + |dealerId|] == dealerId
    ensures url[|UrlPrefix| + |dealerId|..] == UrlSuffix
  {
    UrlPrefix + dealerId + UrlSuffix
  }

  /** Recovers the dealer id from a URL of the shape `DealerUrl` builds. */
  function DealerIdOfUrl(url: string): (dealerId: Option<string>)
  {
    if |url| >= |UrlPrefix| + |UrlSuffix|
       && url[..|UrlPrefix|] == UrlPrefix
       && url[|url| - |UrlSuffix|..] == UrlSuffix
    then Some(url[|UrlPrefix|..|url| - |UrlSuffix|])
    else None
  }

  /** The dealer id sits between the fixed base-and-`/dealer_` prefix and the
      fixed `/stock.json` suffix, and can be read back from the URL. */
  lemma DealerUrlRoundTrip(dealerId: string)
    ensures DealerIdOfUrl(DealerUrl(dealerId)) == Some(dealerId)
  {
    var url := DealerUrl(dealerId);
    assert url[..|UrlPrefix|] == UrlPrefix;
    assert url[|url| - |UrlSuffix|..] == UrlSuffix;
    assert url[|UrlPrefix|..|url| - |UrlSuffix|] == dealerId;
  }

  /** Conversely, every URL the reader accepts is the URL of the id it reads. */
  lemma DealerIdOfUrlSound(url: string)
    requires DealerIdOfUrl(url).Some?
    ensures DealerUrl(DealerIdOfUrl(url).value) == url
  {
    var id := DealerIdOfUrl(url).value;
    assert url == url[..|UrlPrefix|] + id + url[|url| - |UrlSuffix|..];
  }

  /** Different dealers give different URL strings to `fetch`. */
  lemma DealerUrlInjective(a: string, b: string)
    requires DealerUrl(a) == DealerUrl(b)
    ensures a == b
  {
    DealerUrlRoundTrip(a);
    DealerUrlRoundTrip(b);
  }

  // ---------------------------------------------------------------------------
  // Cards

  /** `imageSrc` of `createStockItem`: the first image of a non-empty images
      array, and the placeholder in every other case. */
  function ImageSource(images: Images): (src: string)
    ensures images.ImageArray? && |images.urls| > 0 ==> src == images.urls[0]
    ensures !(images.ImageArray? && |images.urls| > 0) ==> src == Placeholder
  {
    match images
    case ImageArray(urls) => if |urls| > 0 then urls[0] else Placeholder
    case NotAnArray => Placeholder
  }

  function FeatureValues(fs: seq<Feature>): (vs: seq<string>)
    ensures |vs| == |fs|
    ensures forall i :: 0 <= i < |fs| ==> vs[i] == fs[i].value
  {
    seq(|fs|, i requires 0 <= i < |fs| => fs[i].value)
  }

  function FeatureLabelsOf(fs: seq<Feature>): (ls: seq<string>)
    ensures |ls| == |fs|
    ensures forall i :: 0 <= i < |fs| ==> ls[i] == fs[i].title
  {
    seq(|fs|, i requires 0 <= i < |fs| => fs[i].title)
  }

  /** The card `createStockItem` fills in for one record: `make - model` as
      heading, the image source with its fallback, and six labelled features
      in a fixed order, the engine being size and size option separated by a
      space. Fields are shown as they are: no defaulting, no escaping. */
  function CardOf(stock: Stock): (c: Card)
    ensures c.heading == stock.make + " - " + stock.model
    ensures c.imageSrc == ImageSource(stock.images)
    ensures c.imageAlt == stock.make + " " + stock.model
    ensures FeatureLabelsOf(c.features) == FeatureLabels
    ensures FeatureValues(c.features)
         == [stock.transmission, stock.bodyType, stock.colour, stock.odometer,
             stock.size + " " + stock.sizeOption, stock.stockNumber]
  {
    Card(
      stock.make + " - " + stock.model,
      ImageSource(stock.images),
      stock.make + " " + stock.model,
      [ Feature(FeatureLabels[0], stock.transmission),
        Feature(FeatureLabels[1], stock.bodyType),
        Feature(FeatureLabels[2], stock.colour),
        Feature(FeatureLabels[3], stock.odometer),
        Feature(FeatureLabels[4], stock.size + " " + stock.sizeOption),
        Feature(FeatureLabels[5], stock.stockNumber) ])
  }

  function FeatureHtml(f: Feature): (html: string)
  {
    "<p class=\"stockFeatureItem\"><strong>" + f.title + "</strong> " + f.value + "</p>"
  }

  const CardOpen: string := "<div class=\"stockItem\">"
  const CardClose: string := "</div></div>"

  /** One feature paragraph per feature, in order. */
  function FeatureLines(fs: seq<Feature>): (lines: seq<string>)
    ensures |lines| == |fs|
    ensures forall i :: 0 <= i < |fs| ==> lines[i] == FeatureHtml(fs[i])
  {
    seq(|fs|, i requires 0 <= i < |fs| => FeatureHtml(fs[i]))
  }

  function CardHtml(c: Card): (html: string)
  {
    CardOpen
    + "<p class=\"stockItemHeading\">" + c.heading + "</p>"
    + "<img class=\"stockItemImage\" src=\"" + c.imageSrc + "\" alt=\"" + c.imageAlt + "\" />"
    + "<div class=\"stockFeatures\">"
    + Join(FeatureLines(c.features))
    + CardClose
  }

  /** `createStockItem(stock)` */
  function StockItem(stock: Stock): (html: string)
  {
    CardHtml(CardOf(stock))
  }

  /** The six feature paragraphs of a record, in card order, each with its
      fixed label. */
  function FeatureMarkup(stock: Stock): (html: string)
  {
    FeatureHtml(Feature(FeatureLabels[0], stock.transmission))
    + FeatureHtml(Feature(FeatureLabels[1], stock.bodyType))
    + FeatureHtml(Feature(FeatureLabels[2], stock.colour))
    + FeatureHtml(Feature(FeatureLabels[3], stock.odometer))
    + FeatureHtml(Feature(FeatureLabels[4], stock.size + " " + stock.sizeOption))
    + FeatureHtml(Feature(FeatureLabels[5], stock.stockNumber))
  }

  /** The markup `createStockItem` returns: the card's opening tag, the
      `make - model` heading, the image with its fallback source and
      `make model` alt text, then the six labelled features in their fixed
      order (transmission, body type, colour, odometer, engine, stock
      number), then the closing tags. */
  lemma StockItemMarkup(stock: Stock)
    ensures StockItem(stock)
         == CardOpen
            + "<p class=\"stockItemHeading\">" + stock.make + " - " + stock.model + "</p>"
            + "<img class=\"stockItemImage\" src=\"" + ImageSource(stock.images)
            + "\" alt=\"" + stock.make + " " + stock.model + "\" />"
            + "<div class=\"stockFeatures\">"
            + FeatureMarkup(stock)
            + CardClose
  {
    FeaturesJoin(stock);
  }

  /** The card's feature paragraphs, joined, are the six in order. */
  lemma FeaturesJoin(stock: Stock)
    ensures Join(FeatureLines(CardOf(stock).features)) == FeatureMarkup(stock)
  {
    var parts := FeatureLines(CardOf(stock).features);
    assert |parts| == 6;
    assert parts[0] == FeatureHtml(Feature(FeatureLabels[0], stock.transmission));
    assert parts[1] == FeatureHtml(Feature(FeatureLabels[1], stock.bodyType));
    assert parts[2] == FeatureHtml(Feature(FeatureLabels[2], stock.colour));
    assert parts[3] == FeatureHtml(Feature(FeatureLabels[3], stock.odometer));
    assert parts[4] == FeatureHtml(Feature(FeatureLabels[4], stock.size + " " + stock.sizeOption));
    assert parts[5] == FeatureHtml(Feature(FeatureLabels[5], stock.stockNumber));
    JoinSix(parts);
  }

  lemma {:induction false} JoinSix(p: seq<string>)
    requires |p| == 6
    ensures Join(p) == p[0] + p[1] + p[2] + p[3] + p[4] + p[5]
  {
    assert p[1..][1..] == p[2..];
    assert p[2..][1..] == p[3..];
    assert p[3..][1..] == p[4..];
    assert p[4..][1..] == p[5..];
    assert Join(p[5..]) == p[5];
    assert Join(p[4..]) == p[4] + p[5];
    assert Join(p[3..]) == p[3] + (p[4] + p[5]);
    assert Join(p[2..]) == p[2] + (p[3] + (p[4] + p[5]));
    assert Join(p[1..]) == p[1] + (p[2] + (p[3] + (p[4] + p[5])));
  }

  /** `data.map(stock => this.createStockItem(stock))`: one card per record,
      in the records' order. */
  function CardsOf(items: seq<Stock>): (cards: seq<string>)
    ensures |cards| == |items|
    ensures forall i :: 0 <= i < |items| ==> cards[i] == StockItem(items[i])
  {
    seq(|items|, i requires 0 <= i < |items| => StockItem(items[i]))
  }

  /** The cards of a list of records are the cards of its parts, back to
      back: no record is dropped, duplicated or moved, and no separator is
      inserted. */
  lemma CardsOfAppend(xs: seq<Stock>, ys: seq<Stock>)
    ensures Join(CardsOf(xs + ys)) == Join(CardsOf(xs)) + Join(CardsOf(ys))
    ensures Join(CardsOf([])) == ""
  {
    assert CardsOf(xs + ys) == CardsOf(xs) + CardsOf(ys);
    JoinAppend(CardsOf(xs), CardsOf(ys));
  }

  // ---------------------------------------------------------------------------
  // Render

  /** `numberOfStock` */
  function StockCount(data: Json<Stock>): (n: nat)
    ensures data.JArray? ==> n == |data.items|
    ensures data.JObject? ==> n == 0
  {
    if data.JArray? then |data.items| else 0
  }

  /** `fetchedData`: the joined cards of an array, or the message paragraph. */
  function Body(data: Json<Stock>): (html: string)
    ensures data.JArray? ==> html == Join(CardsOf(data.items))
    ensures data.JObject? ==> html == "<p>" + data.message + "</p>"
  {
    match data
    case JArray(items) => Join(CardsOf(items))
    case JObject(message) => "<p>" + message + "</p>"
  }

  /** `updatePrimaryColor`: sets `--primaryCol` from a non-empty
      `primary-col` attribute; with the attribute missing or empty the
      property keeps whatever value it had. Nothing else changes. */
  function UpdatePrimaryColor(e: Element): (r: Element)
    ensures r.attrs == e.attrs && r.shadow == e.shadow && r.requests == e.requests
    ensures Present(e.attrs, PrimaryColAttr) ==> r.primaryCol == Some(e.attrs[PrimaryColAttr])
    ensures !Present(e.attrs, PrimaryColAttr) ==> r.primaryCol == e.primaryCol
  {
    if Present(e.attrs, PrimaryColAttr) then e.(primaryCol := Some(e.attrs[PrimaryColAttr])) else e
  }

  /** `render(data)`: appends one count-heading-and-wrapper section to the
      shadow root (`innerHTML +=`), removing nothing, then refreshes
      `--primaryCol`. The heading is there for messages too, with count 0. */
  function Render(e: Element, data: Json<Stock>): (r: Element)
    ensures |r.shadow| == |e.shadow| + 1 && r.shadow[..|e.shadow|] == e.shadow
    ensures r.shadow[|e.shadow|] == StockSection(StockCount(data), Body(data))
    ensures Serialize(r.shadow) == Serialize(e.shadow) + Html(StockSection(StockCount(data), Body(data)))
    ensures r.attrs == e.attrs && r.requests == e.requests
    ensures Present(e.attrs, PrimaryColAttr) ==> r.primaryCol == Some(e.attrs[PrimaryColAttr])
    ensures !Present(e.attrs, PrimaryColAttr) ==> r.primaryCol == e.primaryCol
  {
    var section := StockSection(StockCount(data), Body(data));
    SerializeAppend(e.shadow, section);
    UpdatePrimaryColor(e.(shadow := e.shadow + [section]))
  }

  /** Rendering the same data twice leaves two identical sections: the
      element accumulates renders instead of replacing them. */
  lemma RenderTwiceAccumulates(e: Element, data: Json<Stock>)
    ensures var section := StockSection(StockCount(data), Body(data));
            Render(Render(e, data), data).shadow == e.shadow + [section, section]
  {
    var r1 := Render(e, data);
    var r2 := Render(r1, data);
    var section := StockSection(StockCount(data), Body(data));
    assert r1.shadow == e.shadow + [section];
    assert r2.shadow == r1.shadow + [section];
  }

  // ---------------------------------------------------------------------------
  // Lifecycle

  /** `connectedCallback`: with a non-empty `dealer-id`, fetches exactly the
      dealer's URL once and renders what came back, or the error's message;
      without one, fetches nothing and renders the missing-id message. Either
      way exactly one section is appended and no error escapes. */
  function ConnectedCallback(e: Element, resp: Response<Stock>): (r: Element)
    ensures r.attrs == e.attrs
    ensures Present(e.attrs, DealerIdAttr) ==> r.requests == e.requests + [DealerUrl(e.attrs[DealerIdAttr])]
    ensures !Present(e.attrs, DealerIdAttr) ==> r.requests == e.requests
    ensures |r.shadow| == |e.shadow| + 1 && r.shadow[..|e.shadow|] == e.shadow
    ensures !Present(e.attrs, DealerIdAttr)
            ==> r.shadow[|e.shadow|] == StockSection(0, "<p>" + MissingDealerMessage + "</p>")
    ensures Present(e.attrs, DealerIdAttr) && resp.NotOk?
            ==> r.shadow[|e.shadow|] == StockSection(0, "<p>" + NotOkMessage + "</p>")
    ensures Present(e.attrs, DealerIdAttr) && resp.Threw?
            ==> r.shadow[|e.shadow|] == StockSection(0, "<p>" + resp.reason + "</p>")
    ensures Present(e.attrs, DealerIdAttr) && resp.Ok?
            ==> r.shadow[|e.shadow|] == StockSection(StockCount(resp.body), Body(resp.body))
    ensures Present(e.attrs, PrimaryColAttr) ==> r.primaryCol == Some(e.attrs[PrimaryColAttr])
    ensures !Present(e.attrs, PrimaryColAttr) ==> r.primaryCol == e.primaryCol
  {
    if Present(e.attrs, DealerIdAttr) then
      var url := DealerUrl(e.attrs[DealerIdAttr]);
      Render(e.(requests := e.requests + [url]), Settle(resp))
    else
      Render(e, JObject(MissingDealerMessage))
  }

  /** The reaction `attributeChangedCallback` picks for a change. */
  datatype Reaction = Refetch | Restyle | Ignore

  /** The dispatch table of `attributeChangedCallback`: a non-empty new
      `dealer-id` refetches; any `primary-col` change restyles; everything
      else, including an emptied or removed `dealer-id`, is ignored. */
  function Dispatch(name: string, newValue: Option<string>): (r: Reaction)
    ensures r == Refetch <==> name == DealerIdAttr && Truthy(newValue)
    ensures r == Restyle <==> name == PrimaryColAttr
  {
    if name == DealerIdAttr && Truthy(newValue) then Refetch
    else if name == PrimaryColAttr then Restyle
    else Ignore
  }

  /** `attributeChangedCallback(name, oldValue, newValue)`, run after the
      attribute list already holds the new value. `oldValue` is unused by the
      element. */
  function AttributeChangedCallback(e: Element, name: string, oldValue: Option<string>,
                                    newValue: Option<string>, resp: Response<Stock>): (r: Element)
    requires newValue == GetAttribute(e.attrs, name)
    ensures r.attrs == e.attrs
    ensures Dispatch(name, newValue) == Refetch
            ==> && r.requests == e.requests + [DealerUrl(newValue.value)]
                && |r.shadow| == |e.shadow| + 1 && r.shadow[..|e.shadow|] == e.shadow
                && r.shadow[|e.shadow|] == StockSection(StockCount(Settle(resp)), Body(Settle(resp)))
                && (Present(e.attrs, PrimaryColAttr) ==> r.primaryCol == Some(e.attrs[PrimaryColAttr]))
                && (!Present(e.attrs, PrimaryColAttr) ==> r.primaryCol == e.primaryCol)
    ensures Dispatch(name, newValue) != Refetch ==> r.requests == e.requests && r.shadow == e.shadow
    ensures Dispatch(name, newValue) == Restyle && Truthy(newValue) ==> r.primaryCol == Some(newValue.value)
    ensures Dispatch(name, newValue) == Restyle && !Truthy(newValue) ==> r.primaryCol == e.primaryCol
    ensures Dispatch(name, newValue) == Ignore ==> r == e
  {
    match Dispatch(name, newValue)
    case Refetch => ConnectedCallback(e, resp)
    case Restyle => UpdatePrimaryColor(e)
    case Ignore => e
  }

  /** The host setting (`Some`) or removing (`None`) an attribute: the DOM
      updates the attribute list and, for an observed attribute, calls
      `attributeChangedCallback`; removing an attribute that is not there
      changes nothing and calls nothing. */
  function ChangeAttribute(e: Element, name: string, value: Option<string>, resp: Response<Stock>): (r: Element)
    ensures value.Some? ==> r.attrs == e.attrs[name := value.value]
    ensures value.None? ==> r.attrs == e.attrs - {name}
    ensures r.requests != e.requests <==> name == DealerIdAttr && Truthy(value)
    ensures name == DealerIdAttr && Truthy(value) ==> r.requests == e.requests + [DealerUrl(value.value)]
    ensures e.shadow <= r.shadow && |r.shadow| <= |e.shadow| + 1
    ensures name == DealerIdAttr && Truthy(value)
            ==> |r.shadow| == |e.shadow| + 1
                && r.shadow[|e.shadow|] == StockSection(StockCount(Settle(resp)), Body(Settle(resp)))
    ensures name != DealerIdAttr && name != PrimaryColAttr ==> r.shadow == e.shadow && r.primaryCol == e.primaryCol
  {
    if value.None? && name !in e.attrs then e
    else
      var attrs := if value.Some? then e.attrs[name := value.value] else e.attrs - {name};
      var e1 := e.(attrs := attrs);
      if name in ObservedAttributes
      then AttributeChangedCallback(e1, name, GetAttribute(e.attrs, name), value, resp)
      else e1
  }

  /** Setting `dealer-id` to a non-empty value fetches that dealer's stock
      once and appends one section rendering the answer; setting it to `""`
      or removing it only updates the attribute list. */
  lemma DealerIdChange(e: Element, value: Option<string>, resp: Response<Stock>)
    ensures var r := ChangeAttribute(e, DealerIdAttr, value, resp);
            && (Truthy(value) ==> r.requests == e.requests + [DealerUrl(value.value)]
                                  && |r.shadow| == |e.shadow| + 1
                                  && r.shadow[..|e.shadow|] == e.shadow
                                  && r.shadow[|e.shadow|] == StockSection(StockCount(Settle(resp)), Body(Settle(resp))))
            && (!Truthy(value) ==> r.requests == e.requests && r.shadow == e.shadow
                                   && r.primaryCol == e.primaryCol)
  {
  }

  /** A `primary-col` change never fetches and never touches the shadow
      root; it sets `--primaryCol` to a non-empty new value and otherwise
      leaves the property as it was (it is never cleared). */
  lemma PrimaryColChange(e: Element, value: Option<string>, resp: Response<Stock>)
    ensures var r := ChangeAttribute(e, PrimaryColAttr, value, resp);
            && r.requests == e.requests
            && r.shadow == e.shadow
            && (Truthy(value) ==> r.primaryCol == Some(value.value))
            && (!Truthy(value) ==> r.primaryCol == e.primaryCol)
  {
  }

  // ---------------------------------------------------------------------------
  // Runs of callbacks

  /** Something the host does to the element: attach it to the document, or
      set/remove an attribute. `resp` is what the network answers if the
      step fetches. */
  datatype Event =
    | Connect(resp: Response<Stock>)
    | Change(name: string, value: Option<string>, resp: Response<Stock>)

  function Step(e: Element, ev: Event): (r: Element)
  {
    match ev
    case Connect(resp) => ConnectedCallback(e, resp)
    case Change(name, value, resp) => ChangeAttribute(e, name, value, resp)
  }

  function Run(e: Element, evs: seq<Event>): (r: Element)
    decreases |evs|
  {
    if |evs| == 0 then e else Run(Step(e, evs[0]), evs[1..])
  }

  /** Every URL string the element has passed to `fetch` is a dealer stock
      URL string for a non-empty dealer id. */
  ghost predicate RequestsAreDealerUrls(e: Element)
  {
    forall i :: 0 <= i < |e.requests| ==>
      DealerIdOfUrl(e.requests[i]).Some? && DealerIdOfUrl(e.requests[i]).value != ""
  }

  lemma StepKeepsHistory(e: Element, ev: Event)
    requires RequestsAreDealerUrls(e)
    ensures var r := Step(e, ev);
            && e.shadow <= r.shadow
            && e.requests <= r.requests
            && |r.requests| <= |e.requests| + 1
            && RequestsAreDealerUrls(r)
            && (e.primaryCol.Some? ==> r.primaryCol.Some?)
  {
    var r := Step(e, ev);
    if |r.requests| > |e.requests| {
      var id :| id != "" && r.requests == e.requests + [DealerUrl(id)];
      DealerUrlRoundTrip(id);
    }
  }

  /** Over any run of callbacks the shadow root only grows (nothing a render
      added is ever removed), fetches are only ever added, every URL string
      passed to `fetch` is a dealer stock URL string, and once set `--primaryCol` is never cleared. */
  lemma {:induction false} RunKeepsHistory(e: Element, evs: seq<Event>)
    requires RequestsAreDealerUrls(e)
    ensures var r := Run(e, evs);
            && e.shadow <= r.shadow
            && e.requests <= r.requests
            && RequestsAreDealerUrls(r)
            && (e.primaryCol.Some? ==> r.primaryCol.Some?)
    decreases |evs|
  {
    if |evs| > 0 {
      StepKeepsHistory(e, evs[0]);
      RunKeepsHistory(Step(e, evs[0]), evs[1..]);
    }
  }

  /** The stylesheet link the constructor adds stays the first piece of the
      shadow root whatever happens afterwards. */
  lemma LinkStaysFirst(attrs: Attrs, evs: seq<Event>)
    ensures var r := Run(Construct(attrs), evs);
            |r.shadow| >= 1 && r.shadow[0] == StylesheetLink(StylesheetHref)
  {
    RunKeepsHistory(Construct(attrs), evs);
  }
}
