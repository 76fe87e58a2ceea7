/** The endpoint variant of the element in js/development1.js: the URL is
    built from two attributes, `base-url` and `endpoint`; a render lists one
    `name - email` paragraph per user and REPLACES the whole shadow root
    (`innerHTML =`) with a style block followed by that content. */
module EndpointElement {
  import opened Base
  import opened Fetch
  import opened Shadow

  const BaseUrlAttr: string := "base-url"
  const EndpointAttr: string := "endpoint"
  const ObservedAttributes: seq<string> := [BaseUrlAttr, EndpointAttr]
  const MissingConfigMessage: string := "Base URL or endpoint not provided."

  /** One element of the JSON array; both fields are the text their
      interpolation prints. */
  datatype User = User(name: string, email: string)

  /** The element: attributes, shadow root pieces, URL strings passed to `fetch` so far. */
  datatype Element = Element(attrs: Attrs, shadow: seq<Node>, requests: seq<string>)

  /** The constructor attaches an empty shadow root. */
  function Construct(attrs: Attrs): (e: Element)
    ensures e.shadow == [] && e.requests == [] && e.attrs == attrs
  {
    Element(attrs, [], [])
  }

  /** `${baseUrl}/${endpoint}` */
  function EndpointUrl(baseUrl: string, endpoint: string): (url: string)
    ensures |url| == |baseUrl| + 1 + |endpoint|
    ensures url[..|baseUrl|] == baseUrl
    ensures url[|baseUrl|] == '/'
    ensures url[|baseUrl| + 1..] == endpoint
  {
    baseUrl + "/" + endpoint
  }

  /** The URL does not determine its two parts: a `/` inside either
      attribute can move across the joining slash. */
  lemma EndpointUrlAmbiguous()
    ensures EndpointUrl("a/b", "c") == EndpointUrl("a", "b/c")
    ensures "a/b" != "a"
  {
  }

  function UserLine(u: User): (line: string)
  {
    "<p>" + u.name + " - " + u.email + "</p>"
  }

  /** `data.map(user => ...)`: one paragraph per user, in order. */
  function UserLines(users: seq<User>): (lines: seq<string>)
    ensures |lines| == |users|
    ensures forall i :: 0 <= i < |users| ==> lines[i] == UserLine(users[i])
  {
    seq(|users|, i requires 0 <= i < |users| => UserLine(users[i]))
  }

  /** The paragraphs of a list of users are the paragraphs of its parts, back
      to back, with no separator. */
  lemma UserLinesAppend(xs: seq<User>, ys: seq<User>)
    ensures Join(UserLines(xs + ys)) == Join(UserLines(xs)) + Join(UserLines(ys))
    ensures forall u: User :: Join(UserLines([u])) == UserLine(u)
  {
    assert UserLines(xs + ys) == UserLines(xs) + UserLines(ys);
    JoinAppend(UserLines(xs), UserLines(ys));
  }

  /** `content`: the joined user paragraphs of an array, or one paragraph
      holding the message. */
  function Content(data: Json<User>): (html: string)
    ensures data.JArray? ==> html == Join(UserLines(data.items))
    ensures data.JObject? ==> html == "<p>" + data.message + "</p>"
  {
    match data
    case JArray(users) => Join(UserLines(users))
    case JObject(message) => "<p>" + message + "</p>"
  }

  /** `render(data)`: the shadow root becomes the style block followed by
      the content, whatever it held before. */
  function Render(e: Element, data: Json<User>): (r: Element)
    ensures r.shadow == [InlineStyle, Markup(Content(data))]
    ensures r.attrs == e.attrs && r.requests == e.requests
  {
    e.(shadow := [InlineStyle, Markup(Content(data))])
  }

  /** Nothing of an earlier render survives a render, and rendering the same
      data again changes nothing. */
  lemma RenderReplaces(e: Element, d1: Json<User>, d2: Json<User>)
    ensures Render(Render(e, d1), d2) == Render(e, d2)
    ensures Render(Render(e, d2), d2) == Render(e, d2)
    ensures Serialize(Render(e, d2).shadow) == Html(InlineStyle) + Content(d2)
  {
    var s := Render(e, d2).shadow;
    assert s[..1] == [InlineStyle];
    assert s[..0] == [];
  }

  /** `connectedCallback`: fetches `base-url/endpoint` once when both
      attributes are non-empty and renders the answer or the error's message;
      otherwise fetches nothing and renders the missing-configuration
      message. No error escapes. */
  function ConnectedCallback(e: Element, resp: Response<User>): (r: Element)
    ensures r.attrs == e.attrs
    ensures Present(e.attrs, BaseUrlAttr) && Present(e.attrs, EndpointAttr)
            ==> r.requests == e.requests + [EndpointUrl(e.attrs[BaseUrlAttr], e.attrs[EndpointAttr])]
    ensures !(Present(e.attrs, BaseUrlAttr) && Present(e.attrs, EndpointAttr)) ==> r.requests == e.requests
    ensures !(Present(e.attrs, BaseUrlAttr) && Present(e.attrs, EndpointAttr))
            ==> r.shadow == [InlineStyle, Markup("<p>" + MissingConfigMessage + "</p>")]
    ensures Present(e.attrs, BaseUrlAttr) && Present(e.attrs, EndpointAttr) && resp.NotOk?
            ==> r.shadow == [InlineStyle, Markup("<p>" + NotOkMessage + "</p>")]
    ensures Present(e.attrs, BaseUrlAttr) && Present(e.attrs, EndpointAttr) && resp.Threw?
            ==> r.shadow == [InlineStyle, Markup("<p>" + resp.reason + "</p>")]
    ensures Present(e.attrs, BaseUrlAttr) && Present(e.attrs, EndpointAttr) && resp.Ok?
            ==> r.shadow == [InlineStyle, Markup(Content(resp.body))]
  {
    if Present(e.attrs, BaseUrlAttr) && Present(e.attrs, EndpointAttr) then
      var url := EndpointUrl(e.attrs[BaseUrlAttr], e.attrs[EndpointAttr]);
      Render(e.(requests := e.requests + [url]), Settle(resp))
    else
      Render(e, JObject(MissingConfigMessage))
  }

  /** Whether `attributeChangedCallback` refetches: only for a non-empty new
      value of `base-url` or `endpoint`. */
  predicate Refetches(name: string, newValue: Option<string>)
  {
    (name == BaseUrlAttr || name == EndpointAttr) && Truthy(newValue)
  }

  /** `attributeChangedCallback(name, oldValue, newValue)`, run after the
      attribute list already holds the new value. */
  function AttributeChangedCallback(e: Element, name: string, oldValue: Option<string>,
                                    newValue: Option<string>, resp: Response<User>): (r: Element)
    ensures Refetches(name, newValue) ==> r == ConnectedCallback(e, resp)
    ensures !Refetches(name, newValue) ==> r == e
  {
    if Refetches(name, newValue) then ConnectedCallback(e, resp) else e
  }

  /** The host setting (`Some`) or removing (`None`) an attribute, with the
      DOM's callback for observed attributes. */
  function ChangeAttribute(e: Element, name: string, value: Option<string>, resp: Response<User>): (r: Element)
    ensures value.Some? ==> r.attrs == e.attrs[name := value.value]
    ensures value.None? ==> r.attrs == e.attrs - {name}
  {
    if value.None? && name !in e.attrs then e
    else
      var attrs := if value.Some? then e.attrs[name := value.value] else e.attrs - {name};
      var e1 := e.(attrs := attrs);
      if name in ObservedAttributes
      then AttributeChangedCallback(e1, name, GetAttribute(e.attrs, name), value, resp)
      else e1
  }

  /** An attribute change fetches (exactly once) precisely when it gives
      `base-url` or `endpoint` a non-empty value, and the other of the two is
      already non-empty; the shadow root then shows what that fetch
      answered. Such a change with the other attribute empty or missing
      shows the missing-configuration message instead. An emptied or removed
      value, or any other attribute, changes nothing but the attribute
      list. */
  lemma ChangeFetchesIff(e: Element, name: string, value: Option<string>, resp: Response<User>)
    ensures var r := ChangeAttribute(e, name, value, resp);
            var other := if name == BaseUrlAttr then EndpointAttr else BaseUrlAttr;
            && (r.requests != e.requests
                <==> Refetches(name, value) && Present(e.attrs, other))
            && (Refetches(name, value) && Present(e.attrs, other)
                ==> r.requests == e.requests + [EndpointUrl(r.attrs[BaseUrlAttr], r.attrs[EndpointAttr])]
                    && r.shadow == [InlineStyle, Markup(Content(Settle(resp)))])
            && (Refetches(name, value) && !Present(e.attrs, other)
                ==> r.shadow == [InlineStyle, Markup("<p>" + MissingConfigMessage + "</p>")])
            && (!Refetches(name, value) ==> r.shadow == e.shadow)
  {
  }
}
