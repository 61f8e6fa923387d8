/** `main` of the collections ingester: the JSON files named on the command
    line are posted one by one, in order, and the first exception ends the
    run. Reading files is a lookup in `store`, which holds the parsed object
    of every file that can be read; the server is the oracle `respond`, which
    has already received `history`. */
module IngestFiles {
  import opened Results
  import opened StacIngest

  method IngestFiles(store: map<string, StacObject>, respond: Responder, history: seq<Request>, files: seq<string>)
    returns (posted: seq<Upload<string>>, outcome: Outcome<string>)
    // one post per file, in command-line order, each as `add_stac_object` makes it
    ensures |posted| <= |files|
    ensures forall i :: 0 <= i < |posted| ==> posted[i].path == files[i]
    ensures Faithful(store, CheckForPost, respond, history, posted)
    // a raised HTTP error is the last thing that happens
    ensures RaisesOnlyLast(posted)
    ensures LastRaises(posted) ==> outcome == Aborted(HttpError(posted[|posted| - 1].status))
    // the run completes exactly when every file was posted without a raise
    ensures outcome.Completed? <==> |posted| == |files| && NoneRaise(posted)
    // otherwise the first file that was not posted is the one that failed
    ensures outcome.Aborted? && !LastRaises(posted) ==>
              && |posted| < |files|
              && var f := files[|posted|];
                 if f !in store then outcome.failure == Unreadable(f)
                 else CheckForPost(store[f]).Failure? && outcome.failure == BadObject(CheckForPost(store[f]).error)
  {
    posted := [];
    var i := 0;
    while i < |files|
      invariant 0 <= i <= |files| && |posted| == i
      invariant forall k :: 0 <= k < i ==> posted[k].path == files[k]
      invariant Faithful(store, CheckForPost, respond, history, posted)
      invariant NoneRaise(posted)
    {
      var f := files[i];
      if f !in store {
        return posted, Aborted(Unreadable(f));
      }
      var obj := store[f];
      var endpoint := CheckForPost(obj);
      if endpoint.Failure? {
        return posted, Aborted(BadObject(endpoint.error));
      }
      var request := Request(endpoint.value, obj);
      var status := respond(history + Requests(posted), request);
      var upload := Upload(f, request, status);
      assert [upload][..0] == [];
      assert Requests([upload][..0]) == [];
      assert history + Requests(posted) + Requests([upload][..0]) == history + Requests(posted);
      assert Faithful(store, CheckForPost, respond, history + Requests(posted), [upload]);
      FaithfulAppend(store, CheckForPost, respond, history, posted, [upload]);
      posted := posted + [upload];
      if Raises(status) {
        return posted, Aborted(HttpError(status));
      }
      i := i + 1;
    }
    outcome := Completed;
  }
}
