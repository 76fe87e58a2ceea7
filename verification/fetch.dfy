/** The network side of both element variants, reduced to what the elements
    observe: the JSON value `response.json()` produced, or the reason the
    request failed. The request itself, HTTP and JSON parsing are outside the
    model; their outcome is an input. */
module Fetch {

  /** A parsed JSON body as the render code looks at it: either an array of
      records, or any other value, of which only the text its `message`
      property interpolates to is ever used. */
  datatype Json<R> = JArray(items: seq<R>) | JObject(message: string)

  /** What `await fetch(url)` followed by `await response.json()` led to:
      a response with `ok` set and a parsed body, a response without `ok`,
      or an exception (transport failure, malformed JSON) with its
      `message` text. */
  datatype Response<R> = Ok(body: Json<R>) | NotOk | Threw(reason: string)

  /** `fetchData(url)`: returns the body or throws an error with a message. */
  datatype Fetched<R> = Data(json: Json<R>) | Error(message: string)

  const NotOkMessage: string := "Network response was not ok"

  /** `fetchData`: a response without `ok` becomes an error with the fixed
      message; every other exception keeps its own message. */
  function FetchData<R>(resp: Response<R>): (r: Fetched<R>)
    ensures r.Data? <==> resp.Ok?
    ensures r.Data? ==> r.json == resp.body
    ensures resp.NotOk? ==> r == Error(NotOkMessage)
    ensures resp.Threw? ==> r == Error(resp.reason)
  {
    match resp
    case Ok(body) => Data(body)
    case NotOk => Error(NotOkMessage)
    case Threw(reason) => Error(reason)
  }

  /** The `try { render(await fetchData(url)) } catch (error)
      { render({ message: error.message }) }` shape shared by both variants:
      the value handed to `render`. No error leaves this function. */
  function Settle<R>(resp: Response<R>): (data: Json<R>)
    ensures data.JArray? <==> resp.Ok? && resp.body.JArray?
    ensures resp.Ok? ==> data == resp.body
    ensures resp.NotOk? ==> data == JObject(NotOkMessage)
    ensures resp.Threw? ==> data == JObject(resp.reason)
  {
    match FetchData(resp)
    case Data(json) => json
    case Error(message) => JObject(message)
  }
}
