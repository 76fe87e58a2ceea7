/** The two element variants side by side, and whole-element scenarios of
    the dealer-stock element. */
module Variants {
  import opened Base
  import opened Fetch
  import opened Shadow
  import StockElement
  import EndpointElement

  /** The one behavioural difference between the renders: the dealer-stock
      element appends (`innerHTML +=`), so a second render with the same
      data repeats the section after the first; the endpoint element
      replaces (`innerHTML =`), so a second render changes nothing. */
  lemma AppendVersusReplace(s: StockElement.Element, sd: Json<StockElement.Stock>,
                            n: EndpointElement.Element, nd: Json<EndpointElement.User>)
    ensures var once := StockElement.Render(s, sd);
            var twice := StockElement.Render(once, sd);
            var h := Html(StockSection(StockElement.StockCount(sd), StockElement.Body(sd)));
            && Serialize(once.shadow) == Serialize(s.shadow) + h
            && Serialize(twice.shadow) == Serialize(s.shadow) + h + h
            && |twice.shadow| == |s.shadow| + 2
    ensures var once := EndpointElement.Render(n, nd);
            EndpointElement.Render(once, nd) == once
            && Serialize(once.shadow) == Html(InlineStyle) + EndpointElement.Content(nd)
  {
    var once := StockElement.Render(s, sd);
    var twice := StockElement.Render(once, sd);
    var h := Html(StockSection(StockElement.StockCount(sd), StockElement.Body(sd)));
    assert Serialize(twice.shadow) == Serialize(once.shadow) + h;
    EndpointElement.RenderReplaces(n, nd, nd);
  }

  const Toyota: StockElement.Stock :=
    StockElement.Stock("Toyota", "Corolla", "Auto", "Sedan", "White", "1000", "1.8", "L", "S1",
                       StockElement.ImageArray([]))

  /** The Toyota's card: heading `make - model` and, with an empty image
      array, the placeholder image. */
  lemma ToyotaCard()
    ensures StockElement.CardOf(Toyota).imageSrc == StockElement.Placeholder
    ensures StockElement.CardOf(Toyota).heading == "Toyota - Corolla"
  {
  }

  /** An array of one record renders as that record's card and counts 1. */
  lemma OneRecordBody(stock: StockElement.Stock)
    ensures StockElement.Body(JArray([stock])) == StockElement.StockItem(stock)
    ensures StockElement.StockCount(JArray([stock])) == 1
  {
    var cards := StockElement.CardsOf([stock]);
    assert cards == [StockElement.StockItem(stock)];
  }

  /** Dealer `2343` whose stock is one Toyota without images: one fetch, of
      that dealer's URL, and one section after the stylesheet link with
      count 1 holding the Toyota's card. */
  lemma ScenarioOneCar()
    ensures var e := StockElement.Construct(map[StockElement.DealerIdAttr := "2343"]);
            var r := StockElement.ConnectedCallback(e, Ok(JArray([Toyota])));
            && r.requests == [StockElement.DealerUrl("2343")]
            && r.shadow == [StylesheetLink(StockElement.StylesheetHref),
                            StockSection(1, StockElement.StockItem(Toyota))]
  {
    var e := StockElement.Construct(map[StockElement.DealerIdAttr := "2343"]);
    var r := StockElement.ConnectedCallback(e, Ok(JArray([Toyota])));
    assert Present(e.attrs, StockElement.DealerIdAttr);
    OneRecordBody(Toyota);
    assert r.shadow == r.shadow[..1] + [r.shadow[1]];
  }

  /** No `dealer-id`: nothing is fetched and the count-0 section holds the
      missing-id message. */
  lemma ScenarioNoDealer(resp: Response<StockElement.Stock>)
    ensures var r := StockElement.ConnectedCallback(StockElement.Construct(map[]), resp);
            && r.requests == []
            && r.shadow == [StylesheetLink(StockElement.StylesheetHref),
                            StockSection(0, "<p>" + StockElement.MissingDealerMessage + "</p>")]
  {
    var r := StockElement.ConnectedCallback(StockElement.Construct(map[]), resp);
    assert r.shadow == r.shadow[..1] + [r.shadow[1]];
  }

  /** A failed response (say HTTP 500): the count-0 section holds the fixed
      network message, and the element is otherwise as after any fetch. */
  lemma ScenarioServerError()
    ensures var e := StockElement.Construct(map[StockElement.DealerIdAttr := "2343"]);
            var r := StockElement.ConnectedCallback(e, NotOk);
            && r.requests == [StockElement.DealerUrl("2343")]
            && r.shadow == [StylesheetLink(StockElement.StylesheetHref),
                            StockSection(0, "<p>" + NotOkMessage + "</p>")]
  {
    var e := StockElement.Construct(map[StockElement.DealerIdAttr := "2343"]);
    assert Present(e.attrs, StockElement.DealerIdAttr);
    var r := StockElement.ConnectedCallback(e, NotOk);
    assert r.shadow == r.shadow[..1] + [r.shadow[1]];
  }

  /** The order a browser upgrades an element declared with a non-empty
      `dealer-id` in the page: the attribute's initial value reaches
      `attributeChangedCallback` before `connectedCallback` runs, so the
      dealer's stock is fetched twice and two sections follow the link, the
      first rendering the first answer and the second the second. */
  lemma UpgradeOrder(id: string, r1: Response<StockElement.Stock>, r2: Response<StockElement.Stock>)
    requires id != ""
    ensures var r := StockElement.Run(StockElement.Construct(map[]),
                                      [StockElement.Change(StockElement.DealerIdAttr, Some(id), r1),
                                       StockElement.Connect(r2)]);
            && r.requests == [StockElement.DealerUrl(id), StockElement.DealerUrl(id)]
            && r.shadow == [StylesheetLink(StockElement.StylesheetHref),
                            StockSection(StockElement.StockCount(Settle(r1)), StockElement.Body(Settle(r1))),
                            StockSection(StockElement.StockCount(Settle(r2)), StockElement.Body(Settle(r2)))]
  {
    var e0 := StockElement.Construct(map[]);
    var e1 := StockElement.ChangeAttribute(e0, StockElement.DealerIdAttr, Some(id), r1);
    assert e1.shadow == e1.shadow[..1] + [e1.shadow[1]];
    assert Present(e1.attrs, StockElement.DealerIdAttr);
    var e2 := StockElement.ConnectedCallback(e1, r2);
    assert e2.shadow == e2.shadow[..2] + [e2.shadow[2]];
    var evs := [StockElement.Change(StockElement.DealerIdAttr, Some(id), r1), StockElement.Connect(r2)];
    assert StockElement.Run(e0, evs) == StockElement.Run(e1, evs[1..]);
    assert StockElement.Run(e1, evs[1..]) == StockElement.Run(e2, []);
  }

  /** The upgrade order for markup `dealer-id="2343"`. */
  lemma ScenarioUpgradeOrder(r1: Response<StockElement.Stock>, r2: Response<StockElement.Stock>)
    ensures var r := StockElement.Run(StockElement.Construct(map[]),
                                      [StockElement.Change(StockElement.DealerIdAttr, Some("2343"), r1),
                                       StockElement.Connect(r2)]);
            && r.requests == [StockElement.DealerUrl("2343"), StockElement.DealerUrl("2343")]
            && |r.shadow| == 3
            && r.shadow[1] == StockSection(StockElement.StockCount(Settle(r1)), StockElement.Body(Settle(r1)))
            && r.shadow[2] == StockSection(StockElement.StockCount(Settle(r2)), StockElement.Body(Settle(r2)))
  {
    UpgradeOrder("2343", r1, r2);
  }
}
