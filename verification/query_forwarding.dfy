/** `updateStockFetcherFromQuery` of js/development.js: on page load the
    query parameters are read and two of them, `dealer-id` and
    `primary-col`, are copied onto the page's `stock-fetcher` element with
    `setAttribute`, each only when its value is non-empty. The element is the
    dealer-stock element of `StockElement`; a forwarded `dealer-id` therefore
    makes it fetch. */
module QueryForwarding {
  import opened Base
  import opened Fetch
  import opened QueryString
  import opened StockElement

  /** One `stockFetcher.setAttribute(name, value)` call. */
  datatype SetCall = SetCall(name: string, value: string)

  /** The `setAttribute` calls the two `if`s make, in order. */
  function Forwarded(params: map<string, string>): (calls: seq<SetCall>)
    ensures |calls| <= 2
    ensures forall i :: 0 <= i < |calls| ==>
              && (calls[i].name == DealerIdAttr || calls[i].name == PrimaryColAttr)
              && calls[i].name in params
              && calls[i].value == params[calls[i].name]
              && calls[i].value != ""
    ensures Present(params, DealerIdAttr) ==> SetCall(DealerIdAttr, params[DealerIdAttr]) in calls
    ensures Present(params, PrimaryColAttr) ==> SetCall(PrimaryColAttr, params[PrimaryColAttr]) in calls
    ensures |calls| == 2 ==> calls[0].name == DealerIdAttr && calls[1].name == PrimaryColAttr
  {
    (if Present(params, DealerIdAttr) then [SetCall(DealerIdAttr, params[DealerIdAttr])] else [])
    + (if Present(params, PrimaryColAttr) then [SetCall(PrimaryColAttr, params[PrimaryColAttr])] else [])
  }

  /** Makes the calls one after the other; `resp` answers the fetch a
      `dealer-id` change starts. */
  function ApplyCalls(e: Element, calls: seq<SetCall>, resp: Response<Stock>): (r: Element)
    decreases |calls|
  {
    if |calls| == 0 then e
    else ApplyCalls(ChangeAttribute(e, calls[0].name, Some(calls[0].value), resp), calls[1..], resp)
  }

  /** Forwarding a parameter object to the element. */
  function ApplyParams(e: Element, params: map<string, string>, resp: Response<Stock>): (r: Element)
  {
    ApplyCalls(e, Forwarded(params), resp)
  }

  /** What forwarding `params` to `e` must leave as `r`: a present,
      non-empty `dealer-id` becomes the attribute and triggers exactly one
      fetch, of that dealer's URL, appending one section; a present,
      non-empty `primary-col` becomes the attribute and the `--primaryCol`
      value; nothing else is touched, no attribute is removed, and with
      neither parameter the element is unchanged. */
  ghost predicate ForwardedAsPromised(e: Element, params: map<string, string>, r: Element)
  {
    && e.attrs.Keys <= r.attrs.Keys
    && (forall n :: n in e.attrs && n != DealerIdAttr && n != PrimaryColAttr ==> n in r.attrs && r.attrs[n] == e.attrs[n])
    && (Present(params, DealerIdAttr)
        ==> && DealerIdAttr in r.attrs && r.attrs[DealerIdAttr] == params[DealerIdAttr]
            && r.requests == e.requests + [DealerUrl(params[DealerIdAttr])]
            && |r.shadow| == |e.shadow| + 1
            && r.shadow[..|e.shadow|] == e.shadow)
    && (!Present(params, DealerIdAttr)
        ==> && r.requests == e.requests
            && r.shadow == e.shadow
            && (DealerIdAttr in e.attrs ==> DealerIdAttr in r.attrs && r.attrs[DealerIdAttr] == e.attrs[DealerIdAttr]))
    && (Present(params, PrimaryColAttr)
        ==> PrimaryColAttr in r.attrs && r.attrs[PrimaryColAttr] == params[PrimaryColAttr] && r.primaryCol == Some(params[PrimaryColAttr]))
    && (!Present(params, PrimaryColAttr) && PrimaryColAttr in e.attrs
        ==> PrimaryColAttr in r.attrs && r.attrs[PrimaryColAttr] == e.attrs[PrimaryColAttr])
    && (!Present(params, DealerIdAttr) && !Present(params, PrimaryColAttr) ==> r == e)
  }

  /** Forwarding does what `ForwardedAsPromised` says, whatever the
      parameters. */
  lemma ForwardingEffect(e: Element, params: map<string, string>, resp: Response<Stock>)
    ensures ForwardedAsPromised(e, params, ApplyParams(e, params, resp))
  {
    if Present(params, DealerIdAttr) && Present(params, PrimaryColAttr) {
      ForwardingBothCase(e, params, resp);
    } else if Present(params, DealerIdAttr) {
      ForwardingDealerCase(e, params, resp);
    } else if Present(params, PrimaryColAttr) {
      ForwardingColourCase(e, params, resp);
    } else {
      assert Forwarded(params) == [];
    }
  }

  lemma ForwardingBothCase(e: Element, params: map<string, string>, resp: Response<Stock>)
    requires Present(params, DealerIdAttr) && Present(params, PrimaryColAttr)
    ensures ForwardedAsPromised(e, params, ApplyParams(e, params, resp))
  {
    assert Forwarded(params) == [SetCall(DealerIdAttr, params[DealerIdAttr]), SetCall(PrimaryColAttr, params[PrimaryColAttr])];
    ForwardBoth(e, params[DealerIdAttr], params[PrimaryColAttr], resp);
  }

  lemma ForwardingDealerCase(e: Element, params: map<string, string>, resp: Response<Stock>)
    requires Present(params, DealerIdAttr) && !Present(params, PrimaryColAttr)
    ensures ForwardedAsPromised(e, params, ApplyParams(e, params, resp))
  {
    assert Forwarded(params) == [SetCall(DealerIdAttr, params[DealerIdAttr])];
    ForwardOne(e, DealerIdAttr, params[DealerIdAttr], resp);
  }

  lemma ForwardingColourCase(e: Element, params: map<string, string>, resp: Response<Stock>)
    requires !Present(params, DealerIdAttr) && Present(params, PrimaryColAttr)
    ensures ForwardedAsPromised(e, params, ApplyParams(e, params, resp))
  {
    assert Forwarded(params) == [SetCall(PrimaryColAttr, params[PrimaryColAttr])];
    ForwardOne(e, PrimaryColAttr, params[PrimaryColAttr], resp);
  }

  lemma ForwardOne(e: Element, name: string, value: string, resp: Response<Stock>)
    requires value != ""
    requires name == DealerIdAttr || name == PrimaryColAttr
    ensures var r := ApplyCalls(e, [SetCall(name, value)], resp);
      && r == ChangeAttribute(e, name, Some(value), resp)
      && r.attrs == e.attrs[name := value]
      && (name == DealerIdAttr ==> && r.requests == e.requests + [DealerUrl(value)]
                                   && |r.shadow| == |e.shadow| + 1
                                   && r.shadow[..|e.shadow|] == e.shadow)
      && (name == PrimaryColAttr ==> r.requests == e.requests && r.shadow == e.shadow
                                     && r.primaryCol == Some(value))
  {
    var r := ChangeAttribute(e, name, Some(value), resp);
    assert ApplyCalls(r, [], resp) == r;
    if name == DealerIdAttr {
      DealerIdChange(e, Some(value), resp);
    } else {
      PrimaryColChange(e, Some(value), resp);
    }
  }

  lemma ForwardBoth(e: Element, dealerId: string, colour: string, resp: Response<Stock>)
    requires dealerId != "" && colour != ""
    ensures var r := ApplyCalls(e, [SetCall(DealerIdAttr, dealerId), SetCall(PrimaryColAttr, colour)], resp);
      && r.attrs == e.attrs[DealerIdAttr := dealerId][PrimaryColAttr := colour]
      && r.requests == e.requests + [DealerUrl(dealerId)]
      && |r.shadow| == |e.shadow| + 1
      && r.shadow[..|e.shadow|] == e.shadow
      && r.primaryCol == Some(colour)
  {
    var calls := [SetCall(DealerIdAttr, dealerId), SetCall(PrimaryColAttr, colour)];
    var e1 := ChangeAttribute(e, DealerIdAttr, Some(dealerId), resp);
    assert calls[1..] == [SetCall(PrimaryColAttr, colour)];
    assert ApplyCalls(e, calls, resp) == ApplyCalls(e1, calls[1..], resp);
    ForwardOne(e, DealerIdAttr, dealerId, resp);
    ForwardOne(e1, PrimaryColAttr, colour, resp);
  }

  /** `updateStockFetcherFromQuery()`: reads the parameters with the scan
      and forwards them. When a decode throws, the handler stops before any
      `setAttribute`, so the element is left as it was. */
  method UpdateStockFetcherFromQuery(search: string, decode: string -> Option<string>,
                                     e: Element, resp: Response<Stock>)
    returns (r: Element)
    ensures QueryParams(search, decode).None? ==> r == e
    ensures QueryParams(search, decode).Some? ==> r == ApplyParams(e, QueryParams(search, decode).value, resp)
  {
    var params := GetQueryParams(search, decode);
    match params
    case None =>
      r := e;
    case Some(p) =>
      r := ApplyParams(e, p, resp);
  }


  const ExampleQuery: string := "dealer-id=1&dealer-id=2343&primary-col=red"
  const ExampleSearch: string := "?" + ExampleQuery

  /** The three places where the regular expression matches the example. */
  lemma ExampleMatches()
    ensures RegexMatch(ExampleQuery, 0, 9, 11)
    ensures RegexMatch(ExampleQuery, 12, 21, 26)
    ensures RegexMatch(ExampleQuery, 27, 38, 42)
    ensures !KeyChar(ExampleQuery[11]) && !KeyChar(ExampleQuery[26])
  {
  }

  /** The keys and values those matches capture. */
  lemma ExampleCaptures()
    ensures ExampleQuery[0..9] == DealerIdAttr && ExampleQuery[10..11] == "1"
    ensures ExampleQuery[12..21] == DealerIdAttr && ExampleQuery[22..26] == "2343"
    ensures ExampleQuery[27..38] == PrimaryColAttr && ExampleQuery[39..42] == "red"
  {
    var q := ExampleQuery;
    assert q[0..9] == DealerIdAttr by {
      assert forall i :: 0 <= i < 9 ==> q[i] == DealerIdAttr[i];
    }
    assert q[10..11] == "1" by {
      assert q[10] == '1';
    }
    assert q[12..21] == DealerIdAttr by {
      assert forall i :: 0 <= i < 9 ==> q[12 + i] == DealerIdAttr[i];
    }
    assert q[22..26] == "2343" by {
      assert forall i :: 0 <= i < 4 ==> q[22 + i] == "2343"[i];
    }
    assert q[27..38] == PrimaryColAttr by {
      assert forall i :: 0 <= i < 11 ==> q[27 + i] == PrimaryColAttr[i];
    }
    assert q[39..42] == "red" by {
      assert forall i :: 0 <= i < 3 ==> q[39 + i] == "red"[i];
    }
  }

  /** Any 42-character string with the example's three matches and two
      separators yields the three pairs those matches capture. */
  lemma ExampleShape(q: string)
    requires |q| == 42
    requires RegexMatch(q, 0, 9, 11) && RegexMatch(q, 12, 21, 26) && RegexMatch(q, 27, 38, 42)
    requires !KeyChar(q[11]) && !KeyChar(q[26])
    ensures Tokens(q, 0) == [Pair(q[0..9], q[10..11]), Pair(q[12..21], q[22..26]), Pair(q[27..38], q[39..42])]
  {
    TokensAtMatch(q, 27, 38, 42);
    assert Tokens(q, 42) == [];
    TokensAtMatch(q, 12, 21, 26);
    ExecSkipsSeparator(q, 26);
    TokensAtMatch(q, 0, 9, 11);
    ExecSkipsSeparator(q, 11);
  }

  lemma ExampleQueryTokens()
    ensures Tokens(DropFirst(ExampleSearch), 0)
         == [Pair(DealerIdAttr, "1"), Pair(DealerIdAttr, "2343"), Pair(PrimaryColAttr, "red")]
  {
    assert DropFirst(ExampleSearch) == ExampleQuery;
    ExampleMatches();
    ExampleCaptures();
    ExampleShape(ExampleQuery);
  }

  /** A `decodeURIComponent` for text without escapes. */
  function NoEscapes(s: string): Option<string>
  {
    Some(s)
  }

  /** Storing the example's three pairs: the second `dealer-id`
      overwrites the first. */
  lemma ExampleAssign()
    ensures Assign(map[], [Pair(DealerIdAttr, "1"), Pair(DealerIdAttr, "2343"), Pair(PrimaryColAttr, "red")], NoEscapes)
         == Some(map[DealerIdAttr := "2343", PrimaryColAttr := "red"])
  {
    var t1 := Pair(DealerIdAttr, "1");
    var t2 := Pair(DealerIdAttr, "2343");
    var t3 := Pair(PrimaryColAttr, "red");
    assert [t1, t2, t3] == [t1] + [t2, t3] && [t2, t3] == [t2] + [t3] && [t3] == [t3] + [];
    var m1 := map[DealerIdAttr := "1"];
    var m2 := map[DealerIdAttr := "2343"];
    var m3 := map[DealerIdAttr := "2343", PrimaryColAttr := "red"];
    AssignCons(map[], t1, [t2, t3], NoEscapes);
    AssignCons(m1, t2, [t3], NoEscapes);
    assert m1[DealerIdAttr := "2343"] == m2;
    AssignCons(m2, t3, [], NoEscapes);
  }

  /** `?dealer-id=1&dealer-id=2343&primary-col=red`, with no escapes to
      decode: the later `dealer-id` wins. */
  lemma ExampleQueryParams()
    ensures QueryParams(ExampleSearch, NoEscapes) == Some(map[DealerIdAttr := "2343", PrimaryColAttr := "red"])
  {
    ExampleQueryTokens();
    ExampleAssign();
  }

  /** Forwarding that query fetches dealer 2343's stock and sets
      `--primaryCol` to `red`. */
  lemma ExampleQueryForwarded(e: Element, resp: Response<Stock>)
    ensures var p := QueryParams(ExampleSearch, NoEscapes);
            && p.Some?
            && ApplyParams(e, p.value, resp).requests == e.requests + [DealerUrl("2343")]
            && ApplyParams(e, p.value, resp).primaryCol == Some("red")
  {
    ExampleQueryParams();
    ForwardingEffect(e, map[DealerIdAttr := "2343", PrimaryColAttr := "red"], resp);
  }
}
