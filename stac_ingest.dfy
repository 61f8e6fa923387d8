/** What both ingesters share: the endpoint a STAC object is posted to, the
    rule that turns an HTTP status into skip-or-raise, and the log of posts.
    The API server is a response oracle: given every request it has received
    so far and a new one, it answers with a status code. */
module StacIngest {
  import opened Results

  datatype Link = Link(rel: string, href: string)

  /** The keys of a STAC JSON object that the ingesters read; a key that is
      absent from the JSON is `None`. The object is posted as a whole. */
  datatype StacObject = StacObject(
    kind: Option<string>,
    id: Option<string>,
    collection: Option<string>,
    links: Option<seq<Link>>)

  /** Why an object was rejected before anything was posted: a `KeyError` on
      `type`, `collection` or `id`, or the failed `assert` on the type. */
  datatype ObjectError = MissingType | UnsupportedType(kind: string) | MissingCollection | MissingId

  /** `get_endpoint` (and the same branch inside the tree ingester's
      `add_stac_object`). */
  function GetEndpoint(obj: StacObject): (r: Result<string, ObjectError>)
    ensures r == Success("/collections") <==> obj.kind == Some("Catalog") || obj.kind == Some("Collection")
    ensures r.Success? && r.value != "/collections" <==> obj.kind == Some("Feature") && obj.collection.Some?
    ensures r.Failure? ==>
              r.error == (if obj.kind.None? then MissingType
                          else if obj.kind.value != "Feature" then UnsupportedType(obj.kind.value)
                          else MissingCollection)
  {
    match obj.kind
    case None => Failure(MissingType)
    case Some(k) =>
      if k == "Catalog" || k == "Collection" then Success("/collections")
      else if k != "Feature" then Failure(UnsupportedType(k))
      else match obj.collection
        case None => Failure(MissingCollection)
        case Some(c) => Success("/collections/" + c + "/items")
  }

  /** The collection an endpoint posts into: the middle of
      `/collections/{c}/items`, or nothing for `/collections`. */
  function EndpointCollection(endpoint: string): Option<string>
  {
    if |endpoint| >= 19 && endpoint[..13] == "/collections/" && endpoint[|endpoint| - 6..] == "/items"
    then Some(endpoint[13..|endpoint| - 6])
    else None
  }

  /** An item is posted into its own collection, and a catalog or a
      collection into none: the endpoint can be read back to the `collection`
      field it was built from. */
  lemma EndpointNamesCollection(obj: StacObject)
    requires GetEndpoint(obj).Success?
    ensures EndpointCollection(GetEndpoint(obj).value) ==
            (if obj.kind == Some("Feature") then obj.collection else None)
  {
    var e := GetEndpoint(obj).value;
    if obj.kind == Some("Feature") {
      var c := obj.collection.value;
      assert e == "/collections/" + c + "/items";
      assert e[..13] == "/collections/";
      assert e[|e| - 6..] == "/items";
      assert e[13..|e| - 6] == c;
    }
  }

  /** The collections ingester prints `stac_object['id']` before anything
      else, so an object without an id is rejected there. */
  function CheckForPost(obj: StacObject): (r: Result<string, ObjectError>)
    ensures obj.id.None? ==> r == Failure(MissingId)
    ensures obj.id.Some? ==> r == GetEndpoint(obj)
  {
    if obj.id.None? then Failure(MissingId) else GetEndpoint(obj)
  }

  /** `response.raise_for_status()` is reached for every status but 409, and
      raises for a 4xx or 5xx code. */
  predicate Raises(status: int)
  {
    status != 409 && 400 <= status < 600
  }

  datatype Action = Posted | SkippedExisting | Raised

  /** What `add_stac_object` does with the status of its POST. */
  function ResponseAction(status: int): (a: Action)
    ensures a == SkippedExisting <==> status == 409
    ensures a == Raised <==> Raises(status)
    ensures a == Posted <==> status < 400 || 600 <= status
  {
    if status == 409 then SkippedExisting
    else if 400 <= status < 600 then Raised
    else Posted
  }

  datatype Request = Request(endpoint: string, body: StacObject)

  /** The API server: its answer to a request, given every request it received before. */
  type Responder = (seq<Request>, Request) -> int

  /** One POST: the file it came from, what was sent, what came back. */
  datatype Upload<P> = Upload(path: P, request: Request, status: int)

  /** Why a run stopped early. */
  datatype IngestError<P> =
    | Unreadable(path: P)            // the file does not exist or is not JSON
    | BadObject(error: ObjectError)  // rejected before the POST
    | MissingLinks                   // `stac_object['links']` raised after the POST
    | HttpError(status: int)         // `raise_for_status` raised

  datatype Outcome<P> = Completed | Aborted(failure: IngestError<P>)

  function Requests<P>(posted: seq<Upload<P>>): (rs: seq<Request>)
    ensures |rs| == |posted|
    ensures forall i :: 0 <= i < |posted| ==> rs[i] == posted[i].request
  {
    seq(|posted|, i requires 0 <= i < |posted| => posted[i].request)
  }

  lemma RequestsAppend<P>(a: seq<Upload<P>>, b: seq<Upload<P>>)
    ensures Requests(a + b) == Requests(a) + Requests(b)
  {
    assert forall i :: 0 <= i < |a + b| ==> Requests(a + b)[i] == (Requests(a) + Requests(b))[i];
  }

  /** Every post in `posted` came from a file of the store, went to the
      endpoint `check` chose for its object with the object as body, and got
      the answer the server gives after `history` and the posts before it. */
  ghost predicate Faithful<P>(store: map<P, StacObject>, check: StacObject -> Result<string, ObjectError>,
                              respond: Responder, history: seq<Request>, posted: seq<Upload<P>>)
  {
    forall i :: 0 <= i < |posted| ==>
      && posted[i].path in store
      && check(store[posted[i].path]) == Success(posted[i].request.endpoint)
      && posted[i].request.body == store[posted[i].path]
      && posted[i].status == respond(history + Requests(posted[..i]), posted[i].request)
  }

  lemma FaithfulAppend<P>(store: map<P, StacObject>, check: StacObject -> Result<string, ObjectError>,
                          respond: Responder, history: seq<Request>, a: seq<Upload<P>>, b: seq<Upload<P>>)
    requires Faithful(store, check, respond, history, a)
    requires Faithful(store, check, respond, history + Requests(a), b)
    ensures Faithful(store, check, respond, history, a + b)
  {
    forall i | 0 <= i < |a + b|
      ensures (a + b)[i].status == respond(history + Requests((a + b)[..i]), (a + b)[i].request)
    {
      if i < |a| {
        assert (a + b)[..i] == a[..i];
      } else {
        var j := i - |a|;
        assert (a + b)[..i] == a + b[..j];
        RequestsAppend(a, b[..j]);
        assert history + Requests(a + b[..j]) == history + Requests(a) + Requests(b[..j]);
      }
    }
  }

  /** No post before the last one raised. */
  predicate RaisesOnlyLast<P>(posted: seq<Upload<P>>)
  {
    forall i :: 0 <= i < |posted| - 1 ==> !Raises(posted[i].status)
  }

  predicate NoneRaise<P>(posted: seq<Upload<P>>)
  {
    forall i :: 0 <= i < |posted| ==> !Raises(posted[i].status)
  }

  predicate LastRaises<P>(posted: seq<Upload<P>>)
  {
    |posted| > 0 && Raises(posted[|posted| - 1].status)
  }
}
