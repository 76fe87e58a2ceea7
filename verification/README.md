# stock-fetcher: a Dafny model

The repository has a browser custom element, `<stock-fetcher>`, that shows a
car dealer's stock. It also has a page script that copies URL query
parameters onto that element. This project models three parts of it and
proves properties of the model:

- **The dealer-stock element** (`wc-stock-fetcher/wc-stock-fetcher.js`),
  modelled in module `StockElement`.
  - The constructor attaches a shadow root holding a stylesheet link.
  - When the element is connected with a non-empty `dealer-id`, it fetches
    `https://s3.ap-southeast-2.amazonaws.com/stock.publish/dealer_<id>/stock.json`.
  - It then appends a section: a "Number of Stock Items : N" heading and a
    wrapper. The wrapper holds one card per vehicle, or a message paragraph
    when the id is missing or the request fails.
  - After each render, a non-empty `primary-col` attribute sets the
    `--primaryCol` style property.
  - `attributeChangedCallback` refetches when `dealer-id` gets a non-empty
    value. It restyles on any `primary-col` change.
- **The endpoint variant** (`js/development1.js`), modelled in module
  `EndpointElement`.
  - The URL is `base-url/endpoint`, taken from two attributes.
  - The content is one `name - email` paragraph per user.
  - A render replaces the whole shadow root instead of appending to it.
- **The query-string forwarder** (`js/development.js`), modelled in modules
  `QueryString` and `QueryForwarding`.
  - `getQueryParams` scans `location.search` with the global regular
    expression `([^&=]+)=([^&]*)`. It stores the decoded pairs, so a later
    key overwrites an earlier one.
  - `updateStockFetcherFromQuery` forwards a non-empty `dealer-id` and a
    non-empty `primary-col` to the element with `setAttribute`.

Shared pieces live in their own modules:

- `Base`: truthiness of attribute values, the decimal numeral of a count, and
  `join('')`.
- `Fetch`: the outcome of a request, and the `try`/`catch` that turns a
  failure into a `{ message }` object.
- `Shadow`: the shadow root as the ordered list of pieces the code put there,
  with the markup each piece stands for.
- `Variants`: compares the two renders and checks whole scenarios.

Some inputs are parameters of the model:

- The network is a `Response` value: a parsed body, a response without
  `ok`, or an exception with its message.
- `decodeURIComponent` is a function parameter, `string -> Option<string>`.
  `None` means it threw `URIError`.
- The history of host actions is a sequence of `Event`s. `Run` applies them
  in order.

The query-string scan is defined twice, and `QueryString.TokensBySplit`
proves the two equal:

- `Tokens`: leftmost-match semantics of `RegExp.prototype.exec` with
  `lastIndex`.
- `PairsOfPieces(SplitAmp(s))`: a reference definition, piece by `&`-piece.

`QueryString.GetQueryParams` is the imperative scan. It is proved to compute
the same result as the functional definition.

### Behaviour worth noting

- **Card fields.** Fields are printed as they are, with no defaulting and
  no escaping.
- **Message renders.** The stock count heading is emitted for message
  renders too, with count 0.
- **Pieces with a leading `=`.** The regular expression skips leading `=`
  characters of a piece. So `=x=y` yields the pair `x`→`y`.
- **The stock-number label.** In the source file this label is the three
  characters `â„–`: the UTF-8 encoding of `№` read back as Windows-1252. The
  model uses those three characters (`StockElement.FeatureLabels`).
- **Fetches.** The model records the URL string handed to `fetch`, not the
  resource `fetch` then requests (see "Left out").

## Model

| member | source | states |
|---|---|---|
| Base.ParseNatToString | wc-stock-fetcher/wc-stock-fetcher.js:54 | the numeral interpolated for the stock count reads back as exactly that count |
| Base.NatToStringInjective | wc-stock-fetcher/wc-stock-fetcher.js:54 | two different counts never print the same numeral |
| Base.JoinAppend | wc-stock-fetcher/wc-stock-fetcher.js:49 | `join('')` of a concatenation is the concatenation of the joins, so no part is lost, repeated or separated |
| Fetch.FetchData | wc-stock-fetcher/wc-stock-fetcher.js:37-43 | data comes back exactly for an `ok` response, unchanged; a response without `ok` fails with "Network response was not ok"; any other exception keeps its own message |
| Fetch.Settle | wc-stock-fetcher/wc-stock-fetcher.js:26-31 | the value handed to `render` is the body when the response is `ok`, and otherwise a message object with the error's text; it is an array only for an `ok` array body |
| Shadow.SerializeAppend | wc-stock-fetcher/wc-stock-fetcher.js:53-58 | appending a piece to the shadow root extends its markup by that piece's markup, leaving the earlier markup untouched |
| Shadow.SectionShowsCount | wc-stock-fetcher/wc-stock-fetcher.js:46-54 | a section's markup starts with the fixed heading text, followed by a run of digits that ends with the numeral (a non-digit follows) and reads back as the section's count |
| StockElement.Construct | wc-stock-fetcher/wc-stock-fetcher.js:1-13 | a new element's shadow root holds just the stylesheet link, with no fetch made and no colour set |
| StockElement.DealerUrlRoundTrip | wc-stock-fetcher/wc-stock-fetcher.js:20-24 | the dealer id can be read back from the URL built for it |
| StockElement.DealerIdOfUrlSound | wc-stock-fetcher/wc-stock-fetcher.js:20-24 | every URL the reader accepts is the URL built for the id it reads |
| StockElement.DealerUrl | wc-stock-fetcher/wc-stock-fetcher.js:20-24 | the URL string is the fixed base and `/dealer_` prefix, then the id verbatim, then `/stock.json`, each at its position |
| StockElement.DealerUrlInjective | wc-stock-fetcher/wc-stock-fetcher.js:24 | different dealer ids give different URL strings passed to `fetch` |
| StockElement.ImageSource | wc-stock-fetcher/wc-stock-fetcher.js:65-68 | the card image is the first image of a non-empty images array, and the placeholder for an empty array or a non-array |
| StockElement.CardOf | wc-stock-fetcher/wc-stock-fetcher.js:64-84 | a card shows `make - model` as heading and `make model` as alt text; its six features carry the fixed labels in order, with transmission, body type, colour, odometer, `size sizeOption` and stock number as values |
| StockElement.StockItemMarkup | wc-stock-fetcher/wc-stock-fetcher.js:70-83 | the card markup is the opening tag, the `make - model` heading, the image with its fallback source and `make model` alt text, then the six feature paragraphs with their fixed labels in fixed order (transmission, body type, colour, odometer, `size sizeOption`, stock number), then the closing tags |
| StockElement.FeaturesJoin | wc-stock-fetcher/wc-stock-fetcher.js:75-80 | the card's joined feature paragraphs are the six labelled paragraphs in their fixed order |
| StockElement.CardsOf | wc-stock-fetcher/wc-stock-fetcher.js:49 | there is one card per stock record, the i-th card being the i-th record's |
| StockElement.CardsOfAppend | wc-stock-fetcher/wc-stock-fetcher.js:48-49 | the cards of a list of records are the cards of its parts, back to back; no records give the empty string |
| StockElement.StockCount | wc-stock-fetcher/wc-stock-fetcher.js:46 | the count is the array's length, and 0 for a message |
| StockElement.Body | wc-stock-fetcher/wc-stock-fetcher.js:48-50 | the wrapper holds the joined cards for an array, and one paragraph with the message otherwise |
| StockElement.UpdatePrimaryColor | wc-stock-fetcher/wc-stock-fetcher.js:94-100 | a non-empty `primary-col` becomes `--primaryCol`; with the attribute missing or empty the property keeps its value; the modelled attributes, shadow root and fetches are unchanged (the `style` attribute it writes is not modelled, see "Left out") |
| StockElement.Render | wc-stock-fetcher/wc-stock-fetcher.js:45-62 | a render appends exactly one section, with the count and body of the data, after everything already in the shadow root; it then applies the colour rule; attributes and fetches are unchanged |
| StockElement.RenderTwiceAccumulates | wc-stock-fetcher/wc-stock-fetcher.js:53 | rendering the same data twice leaves two identical sections: renders accumulate |
| StockElement.ConnectedCallback | wc-stock-fetcher/wc-stock-fetcher.js:19-35 | with a non-empty `dealer-id`, exactly one fetch, of that dealer's URL, is made; without one, none is. In every case exactly one section is appended, holding the missing-id message, the not-ok message, the exception's message, or the body's count and cards |
| StockElement.Dispatch | wc-stock-fetcher/wc-stock-fetcher.js:86-92 | a refetch happens exactly for a non-empty new `dealer-id`, and a restyle exactly for any `primary-col` change |
| StockElement.AttributeChangedCallback | wc-stock-fetcher/wc-stock-fetcher.js:86-92 | on an element whose attribute list already holds the new value: a refetch adds exactly the fetch of the new id's URL and appends one section rendering that fetch's answer; otherwise there is no fetch and the shadow root is unchanged; a restyle sets the colour to a non-empty value and otherwise keeps it; an ignored change leaves the element unchanged |
| StockElement.ChangeAttribute | wc-stock-fetcher/wc-stock-fetcher.js:86-92 | setting an attribute stores its value and removing one deletes it. A fetch happens exactly when `dealer-id` gets a non-empty value, and it is of that dealer's URL; one section rendering its answer is then appended. The shadow root at most gains one section. An unobserved attribute changes nothing but the attribute list; this assumes the host does not write `style` (see "Left out") |
| StockElement.DealerIdChange | wc-stock-fetcher/wc-stock-fetcher.js:87-88 | a non-empty `dealer-id` fetches that dealer once and appends one section rendering the answer; an emptied or removed one neither fetches nor renders |
| StockElement.PrimaryColChange | wc-stock-fetcher/wc-stock-fetcher.js:89-100 | a `primary-col` change never fetches or renders; it sets the colour to a non-empty value and never clears it, as long as the host does not write `style` (see "Left out") |
| StockElement.StepKeepsHistory | wc-stock-fetcher/wc-stock-fetcher.js:19-100 | one callback at most adds one fetch, whose URL string passed to `fetch` is a dealer URL string with a non-empty id; it only extends the shadow root and the fetch list, and keeps a set colour set |
| StockElement.RunKeepsHistory | wc-stock-fetcher/wc-stock-fetcher.js:19-100 | over any run of callbacks, the shadow root and the fetch list only grow, every URL string passed to `fetch` is a dealer stock URL string with a non-empty id, and a set colour is never cleared, as long as the host does not write `style` (see "Left out") |
| StockElement.LinkStaysFirst | wc-stock-fetcher/wc-stock-fetcher.js:12 | the stylesheet link the constructor adds remains the first piece of the shadow root whatever happens afterwards |
| EndpointElement.Construct | js/development1.js:2-5 | a new element's shadow root is empty and no fetch has been made |
| EndpointElement.EndpointUrl | js/development1.js:15 | the URL is the base URL, one `/`, then the endpoint, each at its position |
| EndpointElement.EndpointUrlAmbiguous | js/development1.js:15 | different attribute pairs can produce the same URL when either contains `/` |
| EndpointElement.UserLines | js/development1.js:37 | there is one paragraph per user, the i-th being the i-th user's `name - email` |
| EndpointElement.UserLinesAppend | js/development1.js:36-37 | the paragraphs of a list of users are those of its parts, back to back; one user gives exactly its paragraph |
| EndpointElement.Content | js/development1.js:36-38 | the content is the joined user paragraphs for an array, and one message paragraph otherwise |
| EndpointElement.Render | js/development1.js:35-49 | after a render the shadow root is exactly the style block and the content; attributes and fetches are unchanged |
| EndpointElement.RenderReplaces | js/development1.js:40-48 | nothing of an earlier render survives a later one, and rendering the same data again changes nothing |
| EndpointElement.ConnectedCallback | js/development1.js:11-25 | one fetch of `base-url/endpoint` happens exactly when both attributes are non-empty. The shadow root then holds the body's content, the not-ok message or the exception's message; without both attributes it holds the missing-configuration message |
| EndpointElement.AttributeChangedCallback | js/development1.js:51-55 | the element reconnects exactly for a non-empty new `base-url` or `endpoint`, and is otherwise unchanged |
| EndpointElement.ChangeAttribute | js/development1.js:7-9 | setting an attribute stores its value; removing one deletes it |
| EndpointElement.ChangeFetchesIff | js/development1.js:51-55 | an attribute change fetches exactly when it gives `base-url` or `endpoint` a non-empty value while the other is non-empty, and the fetch is of `base-url/endpoint`; the shadow root then holds the style block and the content of that fetch's answer. Such a change with the other attribute empty shows the missing-configuration message. A change that does not reconnect leaves the shadow root as it was |
| QueryString.DropFirst | js/development.js:4 | the query string is the search string without its first character, and empty for an empty search string |
| QueryString.KeyEndIs | js/development.js:5 | the end of a key is the first position that is `&`, `=` or the end of the text |
| QueryString.ValueEndIs | js/development.js:5 | the end of a value is the first `&` or the end of the text |
| QueryString.MatchAtIsRegexMatch | js/development.js:5 | the matcher succeeds at a position exactly where `([^&=]+)=([^&]*)` has a match starting there, and then returns the greedy one |
| QueryString.TokensWellFormed | js/development.js:5-7 | every visited pair has a non-empty key without `&` or `=`, and a value without `&` |
| QueryString.PieceTokens | js/development.js:5-7 | inside one `&`-free piece the search yields at most that piece's own pair, then continues at the piece's end |
| QueryString.TokensBySplit | js/development.js:5-7 | the regular-expression loop visits exactly one pair per `&`-separated piece that, after its leading `=` signs, contains `=`. The pair is split at the first `=` after the key |
| QueryString.AssignFailsIff | js/development.js:8 | storing the pairs fails exactly when some key or value does not decode |
| QueryString.LastOccurrenceWins | js/development.js:7-9 | after storing, each key holds the decoded value of its last occurrence, and a key that never occurs is untouched |
| QueryString.ScanKey | js/development.js:5 | the key scan stops at the end of the run of `[^&=]` |
| QueryString.ScanValue | js/development.js:5 | the value scan stops at the end of the run of `[^&]` |
| QueryString.GetQueryParams | js/development.js:2-11 | the one-pass scan returns the same object as storing the regular expression's pairs in order, or reports the throw of a decode |
| QueryString.ExampleDoubleEquals | js/development.js:5 | `k==v` gives key `k` and value `=v` |
| QueryString.ExamplePieceWithoutEquals | js/development.js:5 | in `a&b=c` the piece `a` is passed over and `b`→`c` is still found |
| QueryString.ExampleLeadingEquals | js/development.js:5 | `=x=y` gives `x`→`y` |
| QueryForwarding.Forwarded | js/development.js:18-23 | at most two `setAttribute` calls, each for `dealer-id` or `primary-col` with that parameter's non-empty value; every non-empty one of the two is forwarded, `dealer-id` first |
| QueryForwarding.ForwardingEffect | js/development.js:14-24 | forwarding a non-empty `dealer-id` sets it and fetches that dealer once; forwarding a non-empty `primary-col` sets it and the colour; other attributes are kept and none removed, and this ignores the `style` attribute, which is not modelled; with neither parameter the element is unchanged |
| QueryForwarding.ForwardOne | js/development.js:18-22 | a single forwarded attribute is stored; for `dealer-id` it causes one fetch and one section, for `primary-col` only the colour |
| QueryForwarding.ForwardBoth | js/development.js:18-23 | forwarding both stores both, fetches the dealer once, and leaves the forwarded colour in effect |
| QueryForwarding.UpdateStockFetcherFromQuery | js/development.js:14-24 | when a decode throws the element is left as it was; otherwise the parsed parameters are forwarded |
| QueryForwarding.ExampleQueryTokens | js/development.js:5-9 | `?dealer-id=1&dealer-id=2343&primary-col=red` yields its three pairs in order |
| QueryForwarding.ExampleAssign | js/development.js:8 | storing those pairs keeps the later `dealer-id`, `2343` |
| QueryForwarding.ExampleQueryParams | js/development.js:2-11 | that query parses to `dealer-id` 2343 and `primary-col` red |
| QueryForwarding.ExampleQueryForwarded | js/development.js:14-24 | forwarding that query fetches dealer 2343's stock and sets the colour to red |
| Variants.AppendVersusReplace | wc-stock-fetcher/wc-stock-fetcher.js:53-58 | a second render with the same data repeats the section in the dealer-stock element (`+=`); the endpoint element's second render changes nothing (`=` in js/development1.js line 40) |
| Variants.OneRecordBody | wc-stock-fetcher/wc-stock-fetcher.js:46-49 | an array of one record counts 1 and shows exactly that record's card |
| Variants.ScenarioOneCar | wc-stock-fetcher/wc-stock-fetcher.js:19-28 | `connectedCallback` alone, on an element constructed with dealer 2343, whose stock is one imageless car: one fetch of its URL, and a count-1 section with the car's card after the link |
| Variants.ToyotaCard | wc-stock-fetcher/wc-stock-fetcher.js:66-72 | an imageless car's card shows the placeholder image and `make - model` |
| Variants.ScenarioNoDealer | wc-stock-fetcher/wc-stock-fetcher.js:32-33 | without `dealer-id`: no fetch, and a count-0 section with the missing-id message |
| Variants.UpgradeOrder | wc-stock-fetcher/wc-stock-fetcher.js:19-92 | for any non-empty `dealer-id` in the markup, the browser's order (the attribute change, then `connectedCallback`) fetches that dealer's URL twice and leaves two sections after the link, rendering the first and the second answer in that order |
| Variants.ScenarioUpgradeOrder | wc-stock-fetcher/wc-stock-fetcher.js:19-92 | the same for markup `dealer-id="2343"`: two fetches of dealer 2343's URL, and three pieces in the shadow root, the second and third rendering the first and second answer |
| Variants.ScenarioServerError | wc-stock-fetcher/wc-stock-fetcher.js:37-41 | `connectedCallback` alone, on an element constructed with dealer 2343, given a response without `ok` (an HTTP 500, say): one fetch, and a count-0 section with the not-ok message |

## Left out

- **URL parsing by `fetch`.** `fetch` parses its URL string before making
  the request. It removes a `#` fragment, resolves `.` and `..` segments and
  percent-encodes some characters. None of this is modelled. So the dealer
  ids `1#a` and `1#b` give different strings in `requests` but request the
  same resource. An id such as `x/../../other/data#` requests a resource
  outside the `/dealer_` prefix. `StockElement.DealerUrlInjective` and
  `StockElement.RunKeepsHistory` are about the URL strings, not the
  resources requested.
- **`attributeChangedCallback` preconditions.** `StockElement.AttributeChangedCallback`
  requires that the element's attribute list already holds the new value.
  The DOM guarantees this, since it updates the attribute before calling
  the callback; `ChangeAttribute` models that order.

- **The DOM and HTML parsing.**
  - `innerHTML +=` re-parses the whole shadow root, so the link element is
    recreated. The model keeps the ordered list of pieces instead.
  - The template literals' indentation and their HTML comments are omitted
    from the markup.
  - The CSS text of the style block is not kept.
- **The network and JSON parsing.**
  - `fetch` and `response.json()` are replaced by the `Response` input.
  - JSON values other than arrays count only through the text their
    `message` property interpolates to.
  - Array elements are records whose fields are already the text their
    interpolation prints (`undefined`, numbers and so on).
- **Bodies that make `render` throw.** A `null` body, or a `null` record in
  the array, throws inside `render` before anything is appended. The `catch`
  then renders the exception's message. Such bodies are modelled as
  `Threw(reason)`, with the engine's message as a parameter.
- **Asynchronous interleaving.** `connectedCallback` is `async`. Two
  overlapping refetches may finish, and render, in either order. The model
  runs each callback to completion before the next, with one response per
  fetch.
- **Upgrade-time callbacks.** When the element is created from markup that
  already has attributes, the browser runs `attributeChangedCallback` for
  each observed attribute before `connectedCallback`. `Construct` takes the
  initial attributes without those calls. A run that needs them lists them
  as `Change` events, as `Variants.ScenarioUpgradeOrder` does; the
  `connectedCallback`-only scenarios start from a state a browser does not
  produce for markup with attributes.
- **Element registration.** `customElements.define` is not modelled
  (wc-stock-fetcher.js line 104, development1.js line 59). Both files
  register the same tag name, so loading both would make the second
  registration throw.
- **Page wiring.** `window.onload = updateStockFetcherFromQuery` (development.js
  line 27) is left out. The handler itself is modelled.
- **No matching element.** `document.querySelector` can return `null`, and
  then `setAttribute` throws. This is not modelled: the handler is given the
  element.
- **The `__proto__` key.** Assigning a string to `params['__proto__']` is
  silently ignored, so `params` never has that key. The model's map stores it
  like any other key.
- **Inputs that are parameters.** `decodeURIComponent` is a parameter;
  percent-decoding itself is not modelled.
- **`oldValue`.** `oldValue` in `attributeChangedCallback` is unused by both
  elements and is only passed through.
- **Inherited constraints on attribute values.** Attribute names and values
  are arbitrary strings. The DOM's restrictions on attribute names are not
  modelled.
- **The `style` attribute.** `style.setProperty('--primaryCol', …)` writes
  the element's `style` attribute. The host setting or removing `style`
  therefore replaces or drops `--primaryCol`. The model keeps `primaryCol`
  apart from the attribute list, so a `style` change in a run leaves it as it
  was. The claims that a set colour is never cleared, and that an
  unobserved attribute changes nothing but the attribute list, hold only
  for runs that do not write `style`.
- **Attribute-name case.** In an HTML document `setAttribute` lower-cases
  the name, so `setAttribute('DEALER-ID', '1')` sets `dealer-id` and fetches.
  The model compares names exactly, so `DEALER-ID` is an unobserved name.
