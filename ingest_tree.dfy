/** The tree ingester: `traverse` reads the STAC object at a path, posts it,
    and then descends into every `child` and `item` link, each resolved
    against the directory of the object that holds it. The file system is a
    map from path to parsed object (a path that is absent cannot be read);
    the API server is the oracle `respond`. The docstring's assumption that
    the links form a tree is the precondition `Ranked`: some rank on paths
    drops along every link, so there is no cycle and the recursion ends. */
module IngestTree {
  import opened Results
  import opened Text
  import opened StacIngest

  /** A `PurePosixPath`: whether it is rooted, and its components. */
  datatype FsPath = FsPath(absolute: bool, parts: seq<string>)

  /** Components as `PurePosixPath` keeps them: none empty, `.` or holding a `/`. */
  predicate WellFormed(p: FsPath)
  {
    forall i :: 0 <= i < |p.parts| ==> p.parts[i] != "" && p.parts[i] != "." && '/' !in p.parts[i]
  }

  /** `Path(s)`: empty and `.` components are dropped. */
  function ParsePath(s: string): (p: FsPath)
    ensures WellFormed(p)
    ensures p.absolute <==> |s| > 0 && s[0] == '/'
  {
    FsPath(|s| > 0 && s[0] == '/', PathComponents(s))
  }

  /** The path written out: a leading `/` when rooted, then the components
      joined by `/`. */
  function PathString(p: FsPath): string
  {
    (if p.absolute then "/" else "") + Join(p.parts, '/')
  }

  /** Parsing a written-out path gives the path back. */
  lemma ParsePathString(p: FsPath)
    requires WellFormed(p)
    ensures ParsePath(PathString(p)) == p
  {
    var j := Join(p.parts, '/');
    if p.parts == [] {
      assert j == "";
      if p.absolute {
        assert PathString(p) == "" + ['/'] + "";
        SplitAppend("", "", '/');
      }
    } else {
      SplitJoin(p.parts, '/');
      ComponentsOfPlain(p.parts);
      if p.absolute {
        RootedComponents(p.parts);
      } else {
        JoinStartsWithFirst(p.parts);
        assert PathString(p) == j;
      }
    }
  }

  lemma RootedComponents(parts: seq<string>)
    requires |parts| > 0 && Split(Join(parts, '/'), '/') == parts && Components(parts) == parts
    ensures PathComponents("/" + Join(parts, '/')) == parts
  {
    var j := Join(parts, '/');
    assert "/" + j == "" + ['/'] + j;
    SplitAppend("", j, '/');
    ComponentsAppend([""], parts);
  }

  lemma JoinStartsWithFirst(parts: seq<string>)
    requires |parts| > 0 && parts[0] != ""
    ensures var j := Join(parts, '/'); |j| > 0 && j[0] == parts[0][0]
  {
  }

  /** `path.parent`: the last component dropped; `.` and `/` are their own parent. */
  function Parent(p: FsPath): (q: FsPath)
    ensures q.absolute == p.absolute
    ensures p.parts != [] ==> q.parts + [p.parts[|p.parts| - 1]] == p.parts
    ensures p.parts == [] ==> q == p
  {
    if p.parts == [] then p else FsPath(p.absolute, p.parts[..|p.parts| - 1])
  }

  /** `dir / href`: an absolute href replaces the directory. */
  function JoinPath(dir: FsPath, href: string): FsPath
  {
    var h := ParsePath(href);
    if h.absolute then h else FsPath(dir.absolute, dir.parts + h.parts)
  }

  /** Joining keeps paths well formed; the result is rooted exactly when the
      directory is or the href starts with `/`. */
  lemma JoinPathWellFormed(dir: FsPath, href: string)
    requires WellFormed(dir)
    ensures WellFormed(JoinPath(dir, href))
    ensures JoinPath(dir, href).absolute <==> dir.absolute || (|href| > 0 && href[0] == '/')
  {
  }

  /** Joining a relative href to the path of a non-empty string is parsing
      the two strings with a `/` between them. */
  lemma JoinIsConcat(d: string, href: string)
    requires d != [] && (href == [] || href[0] != '/')
    ensures JoinPath(ParsePath(d), href) == ParsePath(d + "/" + href)
  {
    assert d + "/" + href == d + ['/'] + href;
    SplitAppend(d, href, '/');
    ComponentsAppend(Split(d, '/'), Split(href, '/'));
  }

  /** A relative href naming one file resolves to a path whose parent is the
      directory it was resolved against. */
  lemma JoinedParent(dir: FsPath, href: string)
    requires |href| > 0 && href[0] != '/' && |PathComponents(href)| == 1
    ensures Parent(JoinPath(dir, href)) == dir
  {
    var p := JoinPath(dir, href);
    assert p.parts == dir.parts + PathComponents(href);
    assert p.parts[..|p.parts| - 1] == dir.parts;
  }

  predicate IsChildRel(rel: string)
  {
    rel == "child" || rel == "item"
  }

  /** `get_child_paths`: the `child` and `item` links, in order, resolved
      against `dir`. */
  function GetChildPaths(links: seq<Link>, dir: FsPath): (paths: seq<FsPath>)
    ensures |paths| <= |links|
    ensures forall p :: p in paths ==>
              exists i :: 0 <= i < |links| && IsChildRel(links[i].rel) && p == JoinPath(dir, links[i].href)
    ensures forall i :: 0 <= i < |links| && IsChildRel(links[i].rel) ==> JoinPath(dir, links[i].href) in paths
    decreases |links|
  {
    if links == [] then []
    else
      var rest := GetChildPaths(links[1..], dir);
      assert forall i :: 1 <= i < |links| ==> links[i] == links[1..][i - 1];
      (if IsChildRel(links[0].rel) then [JoinPath(dir, links[0].href)] else []) + rest
  }

  /** Links are kept in their order: the paths of two lists of links are the
      paths of the first followed by those of the second. */
  lemma {:induction false} GetChildPathsAppend(a: seq<Link>, b: seq<Link>, dir: FsPath)
    ensures GetChildPaths(a + b, dir) == GetChildPaths(a, dir) + GetChildPaths(b, dir)
    decreases |a|
  {
    if a != [] {
      assert (a + b)[1..] == a[1..] + b;
      GetChildPathsAppend(a[1..], b, dir);
    } else {
      assert a + b == b;
    }
  }

  /** The paths an object links to, resolved against its own directory; an
      object without `links` has none (reading them raises instead). */
  function Children(obj: StacObject, p: FsPath): seq<FsPath>
  {
    if obj.links.Some? then GetChildPaths(obj.links.value, Parent(p)) else []
  }

  /** The acyclicity precondition: `rank` drops along every child link. */
  ghost predicate Ranked(store: map<FsPath, StacObject>, rank: FsPath -> nat)
  {
    forall p, c :: p in store && c in Children(store[p], p) ==> rank(c) < rank(p)
  }

  datatype Walked = Walked(posted: seq<Upload<FsPath>>, outcome: Outcome<FsPath>)

  /** What `traverse(p)` posts, and how it ends, on a server that has already
      received `history`. */
  ghost function Walk(store: map<FsPath, StacObject>, respond: Responder, rank: FsPath -> nat,
                      p: FsPath, history: seq<Request>): Walked
    requires Ranked(store, rank)
    decreases rank(p), 1, 0
  {
    if p !in store then Walked([], Aborted(Unreadable(p)))
    else
      var obj := store[p];
      match GetEndpoint(obj)
      case Failure(e) => Walked([], Aborted(BadObject(e)))
      case Success(endpoint) =>
        var request := Request(endpoint, obj);
        var status := respond(history, request);
        var first := [Upload(p, request, status)];
        if Raises(status) then Walked(first, Aborted(HttpError(status)))
        else if obj.links.None? then Walked(first, Aborted(MissingLinks))
        else
          var rest := WalkSeq(store, respond, rank, rank(p), Children(obj, p), history + [request]);
          Walked(first + rest.posted, rest.outcome)
  }

  /** The loop over the children `cs`, given as the walks of all but the last
      child followed by the walk of the last. */
  ghost function WalkSeq(store: map<FsPath, StacObject>, respond: Responder, rank: FsPath -> nat,
                         bound: nat, cs: seq<FsPath>, history: seq<Request>): Walked
    requires Ranked(store, rank)
    requires forall c :: c in cs ==> rank(c) < bound
    decreases bound, 0, |cs|
  {
    if cs == [] then Walked([], Completed)
    else
      var init := WalkSeq(store, respond, rank, bound, cs[..|cs| - 1], history);
      if init.outcome.Aborted? then init
      else
        var last := Walk(store, respond, rank, cs[|cs| - 1], history + Requests(init.posted));
        Walked(init.posted + last.posted, last.outcome)
  }

  /** `traverse`. */
  method Traverse(store: map<FsPath, StacObject>, respond: Responder, ghost rank: FsPath -> nat,
                  p: FsPath, history: seq<Request>)
    returns (posted: seq<Upload<FsPath>>, outcome: Outcome<FsPath>)
    requires Ranked(store, rank)
    ensures Walked(posted, outcome) == Walk(store, respond, rank, p, history)
    decreases rank(p), 1
  {
    if p !in store {
      return [], Aborted(Unreadable(p));
    }
    var obj := store[p];
    var endpoint := GetEndpoint(obj);
    if endpoint.Failure? {
      return [], Aborted(BadObject(endpoint.error));
    }
    var request := Request(endpoint.value, obj);
    var status := respond(history, request);
    posted := [Upload(p, request, status)];
    if Raises(status) {
      return posted, Aborted(HttpError(status));
    }
    if obj.links.None? {
      return posted, Aborted(MissingLinks);
    }
    var children := GetChildPaths(obj.links.value, Parent(p));
    var below: seq<Upload<FsPath>> := [];
    var i := 0;
    while i < |children|
      invariant 0 <= i <= |children|
      invariant WalkSeq(store, respond, rank, rank(p), children[..i], history + [request]) == Walked(below, Completed)
    {
      assert children[..i + 1][..i] == children[..i];
      var sub, o := Traverse(store, respond, rank, children[i], history + [request] + Requests(below));
      below := below + sub;
      if o.Aborted? {
        WalkSeqAbortStays(store, respond, rank, rank(p), children, i + 1, history + [request]);
        return posted + below, o;
      }
      i := i + 1;
    }
    assert children[..i] == children;
    return posted + below, Completed;
  }

  /** Once the loop has aborted, the remaining children are not walked. */
  lemma {:induction false} WalkSeqAbortStays(store: map<FsPath, StacObject>, respond: Responder, rank: FsPath -> nat,
                                             bound: nat, cs: seq<FsPath>, k: nat, history: seq<Request>)
    requires Ranked(store, rank)
    requires forall c :: c in cs ==> rank(c) < bound
    requires k <= |cs|
    requires WalkSeq(store, respond, rank, bound, cs[..k], history).outcome.Aborted?
    ensures WalkSeq(store, respond, rank, bound, cs, history) == WalkSeq(store, respond, rank, bound, cs[..k], history)
    decreases |cs| - k
  {
    if k < |cs| {
      var init := cs[..|cs| - 1];
      assert init[..k] == cs[..k];
      WalkSeqAbortStays(store, respond, rank, bound, init, k, history);
    } else {
      assert cs[..k] == cs;
    }
  }

  // ---- The log agrees with the store and the server

  /** Every post of a walk is the object stored at its path, sent to the
      endpoint its type selects, answered as the server answers after all the
      requests before it. */
  lemma {:induction false} WalkFaithful(store: map<FsPath, StacObject>, respond: Responder, rank: FsPath -> nat,
                                        p: FsPath, history: seq<Request>)
    requires Ranked(store, rank)
    ensures Faithful(store, GetEndpoint, respond, history, Walk(store, respond, rank, p, history).posted)
    decreases rank(p), 1, 0
  {
    if p in store && GetEndpoint(store[p]).Success? {
      var obj := store[p];
      var request := Request(GetEndpoint(obj).value, obj);
      var u := Upload(p, request, respond(history, request));
      assert [u][..0] == [];
      assert Requests([u][..0]) == [];
      assert history + Requests([u][..0]) == history;
      assert GetEndpoint(store[[u][0].path]) == Success(u.request.endpoint);
      assert Faithful(store, GetEndpoint, respond, history, [u]);
      if !Raises(u.status) && obj.links.Some? {
        var rest := WalkSeq(store, respond, rank, rank(p), Children(obj, p), history + [request]);
        WalkSeqFaithful(store, respond, rank, rank(p), Children(obj, p), history + [request]);
        assert Requests([u]) == [request];
        FaithfulAppend(store, GetEndpoint, respond, history, [u], rest.posted);
      }
    }
  }

  lemma {:induction false} WalkSeqFaithful(store: map<FsPath, StacObject>, respond: Responder, rank: FsPath -> nat,
                                           bound: nat, cs: seq<FsPath>, history: seq<Request>)
    requires Ranked(store, rank)
    requires forall c :: c in cs ==> rank(c) < bound
    ensures Faithful(store, GetEndpoint, respond, history, WalkSeq(store, respond, rank, bound, cs, history).posted)
    decreases bound, 0, |cs|
  {
    if cs != [] {
      var init := WalkSeq(store, respond, rank, bound, cs[..|cs| - 1], history);
      WalkSeqFaithful(store, respond, rank, bound, cs[..|cs| - 1], history);
      if init.outcome.Completed? {
        var c := cs[|cs| - 1];
        WalkFaithful(store, respond, rank, c, history + Requests(init.posted));
        FaithfulAppend(store, GetEndpoint, respond, history, init.posted,
                       Walk(store, respond, rank, c, history + Requests(init.posted)).posted);
      }
    }
  }

  // ---- The first raise ends the run

  /** A raise can only come from the last post, it is reported as the
      outcome, and an `HttpError` outcome always comes from one. */
  predicate StopsAtRaise(w: Walked)
  {
    && RaisesOnlyLast(w.posted)
    && (LastRaises(w.posted) ==> w.outcome == Aborted(HttpError(w.posted[|w.posted| - 1].status)))
    && (w.outcome.Aborted? && w.outcome.failure.HttpError? ==> LastRaises(w.posted))
  }

  lemma StopsAtRaiseAfter(a: seq<Upload<FsPath>>, w: Walked)
    requires NoneRaise(a) && StopsAtRaise(w)
    ensures StopsAtRaise(Walked(a + w.posted, w.outcome))
  {
    var all := a + w.posted;
    assert forall i :: |a| <= i < |all| ==> all[i] == w.posted[i - |a|];
  }

  lemma {:induction false} WalkStopsAtRaise(store: map<FsPath, StacObject>, respond: Responder, rank: FsPath -> nat,
                                            p: FsPath, history: seq<Request>)
    requires Ranked(store, rank)
    ensures StopsAtRaise(Walk(store, respond, rank, p, history))
    decreases rank(p), 1, 0
  {
    if p in store && GetEndpoint(store[p]).Success? {
      var obj := store[p];
      var request := Request(GetEndpoint(obj).value, obj);
      var u := Upload(p, request, respond(history, request));
      if !Raises(u.status) && obj.links.Some? {
        WalkSeqStopsAtRaise(store, respond, rank, rank(p), Children(obj, p), history + [request]);
        StopsAtRaiseAfter([u], WalkSeq(store, respond, rank, rank(p), Children(obj, p), history + [request]));
      }
    }
  }

  lemma {:induction false} WalkSeqStopsAtRaise(store: map<FsPath, StacObject>, respond: Responder, rank: FsPath -> nat,
                                               bound: nat, cs: seq<FsPath>, history: seq<Request>)
    requires Ranked(store, rank)
    requires forall c :: c in cs ==> rank(c) < bound
    ensures StopsAtRaise(WalkSeq(store, respond, rank, bound, cs, history))
    decreases bound, 0, |cs|
  {
    if cs != [] {
      var init := WalkSeq(store, respond, rank, bound, cs[..|cs| - 1], history);
      WalkSeqStopsAtRaise(store, respond, rank, bound, cs[..|cs| - 1], history);
      if init.outcome.Completed? {
        var c := cs[|cs| - 1];
        WalkStopsAtRaise(store, respond, rank, c, history + Requests(init.posted));
        StopsAtRaiseAfter(init.posted, Walk(store, respond, rank, c, history + Requests(init.posted)));
      }
    }
  }

  /** A walk that completes got no error status at all, and a server that
      never answers with an error status cannot abort a walk with one. */
  lemma CompletedNoneRaise(store: map<FsPath, StacObject>, respond: Responder, rank: FsPath -> nat,
                           p: FsPath, history: seq<Request>)
    requires Ranked(store, rank)
    ensures var w := Walk(store, respond, rank, p, history);
            && (w.outcome.Completed? ==> NoneRaise(w.posted))
            && ((forall h, r :: !Raises(respond(h, r))) ==> !(w.outcome.Aborted? && w.outcome.failure.HttpError?))
  {
    WalkStopsAtRaise(store, respond, rank, p, history);
    WalkFaithful(store, respond, rank, p, history);
  }

  // ---- Pre-order and link order

  /** `c` is one of the paths the object at `q` links to. */
  ghost predicate LinksTo(store: map<FsPath, StacObject>, q: FsPath, c: FsPath)
  {
    q in store && c in Children(store[q], q)
  }

  /** Every post is of one of `roots`, or of a child of an object posted
      before it. */
  ghost predicate LinkedFromEarlier(store: map<FsPath, StacObject>, roots: seq<FsPath>, posted: seq<Upload<FsPath>>)
  {
    forall i :: 0 <= i < |posted| ==>
      || posted[i].path in roots
      || exists j :: 0 <= j < i && LinksTo(store, posted[j].path, posted[i].path)
  }

  lemma LinkedWiden(store: map<FsPath, StacObject>, r1: seq<FsPath>, r2: seq<FsPath>, posted: seq<Upload<FsPath>>)
    requires forall x :: x in r1 ==> x in r2
    requires LinkedFromEarlier(store, r1, posted)
    ensures LinkedFromEarlier(store, r2, posted)
  {
  }

  lemma LinkedConcat(store: map<FsPath, StacObject>, roots: seq<FsPath>, a: seq<Upload<FsPath>>, b: seq<Upload<FsPath>>)
    requires LinkedFromEarlier(store, roots, a) && LinkedFromEarlier(store, roots, b)
    ensures LinkedFromEarlier(store, roots, a + b)
  {
    var all := a + b;
    forall i | 0 <= i < |all|
      ensures all[i].path in roots || exists j :: 0 <= j < i && LinksTo(store, all[j].path, all[i].path)
    {
      if i < |a| {
        assert all[i] == a[i];
        if a[i].path !in roots {
          var j :| 0 <= j < i && LinksTo(store, a[j].path, a[i].path);
          assert all[j] == a[j];
        }
      } else {
        var k := i - |a|;
        assert all[i] == b[k];
        if b[k].path !in roots {
          var j :| 0 <= j < k && LinksTo(store, b[j].path, b[k].path);
          assert all[j + |a|] == b[j];
        }
      }
    }
  }

  /** A post followed by posts that descend from its children descend from it. */
  lemma LinkedUnder(store: map<FsPath, StacObject>, u: Upload<FsPath>, rest: seq<Upload<FsPath>>)
    requires u.path in store
    requires LinkedFromEarlier(store, Children(store[u.path], u.path), rest)
    ensures LinkedFromEarlier(store, [u.path], [u] + rest)
  {
    var all := [u] + rest;
    var cs := Children(store[u.path], u.path);
    forall i | 0 < i < |all|
      ensures exists j :: 0 <= j < i && LinksTo(store, all[j].path, all[i].path)
    {
      assert all[i] == rest[i - 1];
      if rest[i - 1].path in cs {
        assert all[0].path == u.path;
      } else {
        var j :| 0 <= j < i - 1 && LinksTo(store, rest[j].path, rest[i - 1].path);
        assert all[j + 1] == rest[j];
      }
    }
  }

  /** `traverse(p)` posts `p` first, and every later object after the object
      that links to it. */
  lemma {:induction false} WalkPreOrder(store: map<FsPath, StacObject>, respond: Responder, rank: FsPath -> nat,
                                        p: FsPath, history: seq<Request>)
    requires Ranked(store, rank)
    ensures var posted := Walk(store, respond, rank, p, history).posted;
            && (posted != [] ==> posted[0].path == p)
            && LinkedFromEarlier(store, [p], posted)
    decreases rank(p), 1, 0
  {
    if p in store && GetEndpoint(store[p]).Success? {
      var obj := store[p];
      var request := Request(GetEndpoint(obj).value, obj);
      var u := Upload(p, request, respond(history, request));
      if !Raises(u.status) && obj.links.Some? {
        var cs := Children(obj, p);
        WalkSeqPreOrder(store, respond, rank, rank(p), cs, history + [request]);
        LinkedUnder(store, u, WalkSeq(store, respond, rank, rank(p), cs, history + [request]).posted);
      }
    }
  }

  lemma {:induction false} WalkSeqPreOrder(store: map<FsPath, StacObject>, respond: Responder, rank: FsPath -> nat,
                                           bound: nat, cs: seq<FsPath>, history: seq<Request>)
    requires Ranked(store, rank)
    requires forall c :: c in cs ==> rank(c) < bound
    ensures LinkedFromEarlier(store, cs, WalkSeq(store, respond, rank, bound, cs, history).posted)
    decreases bound, 0, |cs|
  {
    if cs != [] {
      var front := cs[..|cs| - 1];
      var init := WalkSeq(store, respond, rank, bound, front, history);
      WalkSeqPreOrder(store, respond, rank, bound, front, history);
      LinkedWiden(store, front, cs, init.posted);
      if init.outcome.Completed? {
        var c := cs[|cs| - 1];
        var last := Walk(store, respond, rank, c, history + Requests(init.posted)).posted;
        WalkPreOrder(store, respond, rank, c, history + Requests(init.posted));
        LinkedWiden(store, [c], cs, last);
        LinkedConcat(store, cs, init.posted, last);
      }
    }
  }

  /** The walk of `w`'s run continued, unless it already stopped, by `next`. */
  function Then(w: Walked, next: Walked): Walked
  {
    if w.outcome.Aborted? then w else Walked(w.posted + next.posted, next.outcome)
  }

  /** One step of the loop over the children. */
  lemma WalkSeqLast(store: map<FsPath, StacObject>, respond: Responder, rank: FsPath -> nat,
                    bound: nat, cs: seq<FsPath>, history: seq<Request>)
    requires Ranked(store, rank)
    requires forall c :: c in cs ==> rank(c) < bound
    requires cs != []
    ensures var init := WalkSeq(store, respond, rank, bound, cs[..|cs| - 1], history);
            WalkSeq(store, respond, rank, bound, cs, history) ==
              Then(init, Walk(store, respond, rank, cs[|cs| - 1], history + Requests(init.posted)))
  {
  }

  lemma ThenAssoc(first: Walked, mid: Walked, last: Walked)
    ensures Then(Then(first, mid), last) == Then(first, Then(mid, last))
  {
    if first.outcome.Completed? && mid.outcome.Completed? {
      assert first.posted + mid.posted + last.posted == first.posted + (mid.posted + last.posted);
    }
  }

  /** Children are walked in link order: the loop walks the first child to
      the end, then, if nothing failed, the rest of the children after it. */
  lemma {:induction false} WalkSeqFront(store: map<FsPath, StacObject>, respond: Responder, rank: FsPath -> nat,
                                        bound: nat, cs: seq<FsPath>, history: seq<Request>)
    requires Ranked(store, rank)
    requires forall c :: c in cs ==> rank(c) < bound
    requires cs != []
    ensures var first := Walk(store, respond, rank, cs[0], history);
            WalkSeq(store, respond, rank, bound, cs, history) ==
              Then(first, WalkSeq(store, respond, rank, bound, cs[1..], history + Requests(first.posted)))
    decreases |cs|
  {
    if |cs| == 1 {
      WalkSeqFrontOne(store, respond, rank, bound, cs, history);
    } else {
      var front := cs[..|cs| - 1];
      WalkSeqFront(store, respond, rank, bound, front, history);
      WalkSeqFrontStep(store, respond, rank, bound, cs, history);
    }
  }

  lemma WalkSeqFrontOne(store: map<FsPath, StacObject>, respond: Responder, rank: FsPath -> nat,
                        bound: nat, cs: seq<FsPath>, history: seq<Request>)
    requires Ranked(store, rank)
    requires forall c :: c in cs ==> rank(c) < bound
    requires |cs| == 1
    ensures var first := Walk(store, respond, rank, cs[0], history);
            WalkSeq(store, respond, rank, bound, cs, history) ==
              Then(first, WalkSeq(store, respond, rank, bound, cs[1..], history + Requests(first.posted)))
  {
    var first := Walk(store, respond, rank, cs[0], history);
    WalkSeqLast(store, respond, rank, bound, cs, history);
    assert cs[..0] == [] && cs[1..] == [];
    assert Requests<FsPath>([]) == [];
    assert history + [] == history;
    assert first.posted + [] == first.posted;
  }

  lemma WalkSeqFrontStep(store: map<FsPath, StacObject>, respond: Responder, rank: FsPath -> nat,
                         bound: nat, cs: seq<FsPath>, history: seq<Request>)
    requires Ranked(store, rank)
    requires forall c :: c in cs ==> rank(c) < bound
    requires |cs| > 1
    requires var front := cs[..|cs| - 1];
             var first := Walk(store, respond, rank, front[0], history);
             WalkSeq(store, respond, rank, bound, front, history) ==
               Then(first, WalkSeq(store, respond, rank, bound, front[1..], history + Requests(first.posted)))
    ensures var first := Walk(store, respond, rank, cs[0], history);
            WalkSeq(store, respond, rank, bound, cs, history) ==
              Then(first, WalkSeq(store, respond, rank, bound, cs[1..], history + Requests(first.posted)))
  {
    var n := |cs|;
    var first := Walk(store, respond, rank, cs[0], history);
    var h' := history + Requests(first.posted);
    var mid := WalkSeq(store, respond, rank, bound, cs[1..][..n - 2], h');
    var init := WalkSeq(store, respond, rank, bound, cs[..n - 1], history);
    var c := cs[n - 1];
    var last := Walk(store, respond, rank, c, h' + Requests(mid.posted));
    FrontInit(store, respond, rank, bound, cs, history);
    assert init == Then(first, mid);
    RestLast(store, respond, rank, bound, cs, h');
    assert WalkSeq(store, respond, rank, bound, cs[1..], h') == Then(mid, last);
    WholeLast(store, respond, rank, bound, cs, history, first, mid);
    assert WalkSeq(store, respond, rank, bound, cs, history) == Then(init, last);
    ThenAssoc(first, mid, last);
  }

  lemma FrontInit(store: map<FsPath, StacObject>, respond: Responder, rank: FsPath -> nat,
                  bound: nat, cs: seq<FsPath>, history: seq<Request>)
    requires Ranked(store, rank)
    requires forall c :: c in cs ==> rank(c) < bound
    requires |cs| > 1
    requires var front := cs[..|cs| - 1];
             var first := Walk(store, respond, rank, front[0], history);
             WalkSeq(store, respond, rank, bound, front, history) ==
               Then(first, WalkSeq(store, respond, rank, bound, front[1..], history + Requests(first.posted)))
    ensures var first := Walk(store, respond, rank, cs[0], history);
            WalkSeq(store, respond, rank, bound, cs[..|cs| - 1], history) ==
              Then(first, WalkSeq(store, respond, rank, bound, cs[1..][..|cs| - 2], history + Requests(first.posted)))
  {
    var front := cs[..|cs| - 1];
    assert front[0] == cs[0];
    assert front[1..] == cs[1..][..|cs| - 2];
  }

  lemma RestLast(store: map<FsPath, StacObject>, respond: Responder, rank: FsPath -> nat,
                 bound: nat, cs: seq<FsPath>, h: seq<Request>)
    requires Ranked(store, rank)
    requires forall c :: c in cs ==> rank(c) < bound
    requires |cs| > 1
    ensures var mid := WalkSeq(store, respond, rank, bound, cs[1..][..|cs| - 2], h);
            WalkSeq(store, respond, rank, bound, cs[1..], h) ==
              Then(mid, Walk(store, respond, rank, cs[|cs| - 1], h + Requests(mid.posted)))
  {
    assert cs[1..][|cs| - 2] == cs[|cs| - 1];
    WalkSeqLast(store, respond, rank, bound, cs[1..], h);
  }

  lemma WholeLast(store: map<FsPath, StacObject>, respond: Responder, rank: FsPath -> nat,
                  bound: nat, cs: seq<FsPath>, history: seq<Request>, first: Walked, mid: Walked)
    requires Ranked(store, rank)
    requires forall c :: c in cs ==> rank(c) < bound
    requires |cs| > 1
    requires WalkSeq(store, respond, rank, bound, cs[..|cs| - 1], history) == Then(first, mid)
    ensures WalkSeq(store, respond, rank, bound, cs, history) ==
              Then(Then(first, mid),
                   Walk(store, respond, rank, cs[|cs| - 1], history + Requests(first.posted) + Requests(mid.posted)))
  {
    WalkSeqLast(store, respond, rank, bound, cs, history);
    if first.outcome.Completed? && mid.outcome.Completed? {
      RequestsAppend(first.posted, mid.posted);
      assert history + Requests(first.posted + mid.posted) == history + Requests(first.posted) + Requests(mid.posted);
    }
  }

  // ---- Every reachable object, exactly once on a tree

  /** The paths reachable from `p`: `p` itself and, when it can be read,
      everything reachable from its children. */
  ghost function Desc(store: map<FsPath, StacObject>, rank: FsPath -> nat, p: FsPath): set<FsPath>
    requires Ranked(store, rank)
    decreases rank(p), 1, 0
  {
    if p !in store then {p}
    else {p} + DescSeq(store, rank, rank(p), Children(store[p], p))
  }

  ghost function DescSeq(store: map<FsPath, StacObject>, rank: FsPath -> nat, bound: nat, cs: seq<FsPath>): set<FsPath>
    requires Ranked(store, rank)
    requires forall c :: c in cs ==> rank(c) < bound
    decreases bound, 0, |cs|
  {
    if cs == [] then {}
    else DescSeq(store, rank, bound, cs[..|cs| - 1]) + Desc(store, rank, cs[|cs| - 1])
  }

  /** The paths posted in a log. */
  function Paths(posted: seq<Upload<FsPath>>): set<FsPath>
  {
    set i | 0 <= i < |posted| :: posted[i].path
  }

  lemma PathsSingle(u: Upload<FsPath>)
    ensures Paths([u]) == {u.path}
  {
    assert [u][0].path == u.path;
  }

  lemma PathsAppend(a: seq<Upload<FsPath>>, b: seq<Upload<FsPath>>)
    ensures Paths(a + b) == Paths(a) + Paths(b)
  {
    var all := a + b;
    forall q | q in Paths(a) + Paths(b) ensures q in Paths(all)
    {
      if q in Paths(a) {
        var i :| 0 <= i < |a| && a[i].path == q;
        assert all[i] == a[i];
      } else {
        var i :| 0 <= i < |b| && b[i].path == q;
        assert all[|a| + i] == b[i];
      }
    }
    forall q | q in Paths(all) ensures q in Paths(a) + Paths(b)
    {
      var i :| 0 <= i < |all| && all[i].path == q;
      if i < |a| {
        assert all[i] == a[i];
      } else {
        assert all[i] == b[i - |a|];
      }
    }
  }

  /** A walk posts only reachable paths, a walk that completes posts every
      reachable path, and a walk that stops on a file it cannot read stops on
      a reachable one. */
  lemma {:induction false} WalkCovers(store: map<FsPath, StacObject>, respond: Responder, rank: FsPath -> nat,
                                      p: FsPath, history: seq<Request>)
    requires Ranked(store, rank)
    ensures var w := Walk(store, respond, rank, p, history);
            && Paths(w.posted) <= Desc(store, rank, p)
            && (w.outcome.Completed? ==> Paths(w.posted) == Desc(store, rank, p))
            && (w.outcome.Aborted? && w.outcome.failure.Unreadable? ==>
                  w.outcome.failure.path in Desc(store, rank, p) && w.outcome.failure.path !in store)
    decreases rank(p), 1, 0
  {
    if p in store && GetEndpoint(store[p]).Success? {
      var obj := store[p];
      var request := Request(GetEndpoint(obj).value, obj);
      var u := Upload(p, request, respond(history, request));
      PathsSingle(u);
      if !Raises(u.status) && obj.links.Some? {
        var cs := Children(obj, p);
        var rest := WalkSeq(store, respond, rank, rank(p), cs, history + [request]);
        WalkSeqCovers(store, respond, rank, rank(p), cs, history + [request]);
        PathsAppend([u], rest.posted);
      }
    }
  }

  lemma {:induction false} WalkSeqCovers(store: map<FsPath, StacObject>, respond: Responder, rank: FsPath -> nat,
                                         bound: nat, cs: seq<FsPath>, history: seq<Request>)
    requires Ranked(store, rank)
    requires forall c :: c in cs ==> rank(c) < bound
    ensures var w := WalkSeq(store, respond, rank, bound, cs, history);
            && Paths(w.posted) <= DescSeq(store, rank, bound, cs)
            && (w.outcome.Completed? ==> Paths(w.posted) == DescSeq(store, rank, bound, cs))
            && (w.outcome.Aborted? && w.outcome.failure.Unreadable? ==>
                  w.outcome.failure.path in DescSeq(store, rank, bound, cs) && w.outcome.failure.path !in store)
    decreases bound, 0, |cs|
  {
    if cs != [] {
      var front := cs[..|cs| - 1];
      var init := WalkSeq(store, respond, rank, bound, front, history);
      WalkSeqCovers(store, respond, rank, bound, front, history);
      if init.outcome.Completed? {
        var c := cs[|cs| - 1];
        var last := Walk(store, respond, rank, c, history + Requests(init.posted));
        WalkCovers(store, respond, rank, c, history + Requests(init.posted));
        PathsAppend(init.posted, last.posted);
      }
    }
  }

  /** Reachable paths never rank above where they are reached from. */
  lemma {:induction false} DescRank(store: map<FsPath, StacObject>, rank: FsPath -> nat, p: FsPath, q: FsPath)
    requires Ranked(store, rank)
    requires q in Desc(store, rank, p)
    ensures rank(q) <= rank(p)
    decreases rank(p), 1, 0
  {
    if q != p {
      DescSeqRank(store, rank, rank(p), Children(store[p], p), q);
    }
  }

  lemma {:induction false} DescSeqRank(store: map<FsPath, StacObject>, rank: FsPath -> nat, bound: nat, cs: seq<FsPath>, q: FsPath)
    requires Ranked(store, rank)
    requires forall c :: c in cs ==> rank(c) < bound
    requires q in DescSeq(store, rank, bound, cs)
    ensures rank(q) < bound
    decreases bound, 0, |cs|
  {
    var c := cs[|cs| - 1];
    if q in Desc(store, rank, c) {
      DescRank(store, rank, c, q);
    } else {
      DescSeqRank(store, rank, bound, cs[..|cs| - 1], q);
    }
  }

  /** What is reachable from a list of children is what is reachable from one of them. */
  lemma {:induction false} DescSeqMember(store: map<FsPath, StacObject>, rank: FsPath -> nat, bound: nat, cs: seq<FsPath>, q: FsPath)
    requires Ranked(store, rank)
    requires forall c :: c in cs ==> rank(c) < bound
    ensures q in DescSeq(store, rank, bound, cs) <==> exists j :: 0 <= j < |cs| && q in Desc(store, rank, cs[j])
    decreases |cs|
  {
    if cs != [] {
      var front := cs[..|cs| - 1];
      DescSeqMember(store, rank, bound, front, q);
      assert forall j :: 0 <= j < |front| ==> front[j] == cs[j];
    }
  }

  /** The dataset is arranged as a tree: no path is reachable from two
      different links of the same object. */
  ghost predicate IsTree(store: map<FsPath, StacObject>, rank: FsPath -> nat)
    requires Ranked(store, rank)
  {
    forall p :: p in store ==> SiblingsApart(store, rank, Children(store[p], p))
  }

  ghost predicate SiblingsApart(store: map<FsPath, StacObject>, rank: FsPath -> nat, cs: seq<FsPath>)
    requires Ranked(store, rank)
  {
    forall j, k :: 0 <= j < k < |cs| ==> Desc(store, rank, cs[j]) !! Desc(store, rank, cs[k])
  }

  /** No path appears twice in a log. */
  predicate Distinct(posted: seq<Upload<FsPath>>)
  {
    forall i, j :: 0 <= i < j < |posted| ==> posted[i].path != posted[j].path
  }

  lemma DistinctAppend(a: seq<Upload<FsPath>>, b: seq<Upload<FsPath>>)
    requires Distinct(a) && Distinct(b) && Paths(a) !! Paths(b)
    ensures Distinct(a + b)
  {
    var all := a + b;
    forall i, j | 0 <= i < j < |all| ensures all[i].path != all[j].path
    {
      if j < |a| {
        assert all[i] == a[i] && all[j] == a[j];
      } else if i >= |a| {
        assert all[i] == b[i - |a|] && all[j] == b[j - |a|];
      } else {
        assert all[i] == a[i] && all[j] == b[j - |a|];
        assert a[i].path in Paths(a) && b[j - |a|].path in Paths(b);
      }
    }
  }

  /** On a tree, a walk never posts the same path twice. */
  lemma {:induction false} WalkOnce(store: map<FsPath, StacObject>, respond: Responder, rank: FsPath -> nat,
                                    p: FsPath, history: seq<Request>)
    requires Ranked(store, rank) && IsTree(store, rank)
    ensures Distinct(Walk(store, respond, rank, p, history).posted)
    decreases rank(p), 1, 0
  {
    if p in store && GetEndpoint(store[p]).Success? {
      var obj := store[p];
      var request := Request(GetEndpoint(obj).value, obj);
      var u := Upload(p, request, respond(history, request));
      if !Raises(u.status) && obj.links.Some? {
        var cs := Children(obj, p);
        var rest := WalkSeq(store, respond, rank, rank(p), cs, history + [request]);
        WalkSeqOnce(store, respond, rank, rank(p), cs, history + [request]);
        WalkSeqCovers(store, respond, rank, rank(p), cs, history + [request]);
        if p in Paths(rest.posted) {
          DescSeqRank(store, rank, rank(p), cs, p);
        }
        PathsSingle(u);
        DistinctAppend([u], rest.posted);
      }
    }
  }

  lemma {:induction false} WalkSeqOnce(store: map<FsPath, StacObject>, respond: Responder, rank: FsPath -> nat,
                                       bound: nat, cs: seq<FsPath>, history: seq<Request>)
    requires Ranked(store, rank) && IsTree(store, rank)
    requires forall c :: c in cs ==> rank(c) < bound
    requires SiblingsApart(store, rank, cs)
    ensures Distinct(WalkSeq(store, respond, rank, bound, cs, history).posted)
    decreases bound, 0, |cs|
  {
    if cs != [] {
      var n := |cs|;
      var front := cs[..n - 1];
      var init := WalkSeq(store, respond, rank, bound, front, history);
      LastApart(store, rank, bound, cs);
      WalkSeqOnce(store, respond, rank, bound, front, history);
      if init.outcome.Completed? {
        var c := cs[n - 1];
        var last := Walk(store, respond, rank, c, history + Requests(init.posted));
        WalkOnce(store, respond, rank, c, history + Requests(init.posted));
        WalkSeqCovers(store, respond, rank, bound, front, history);
        WalkCovers(store, respond, rank, c, history + Requests(init.posted));
        DistinctAppend(init.posted, last.posted);
      }
    }
  }

  /** Among children whose reachable sets are pairwise disjoint, the last
      child's set is disjoint from what the others reach, and the others are
      still pairwise disjoint. */
  lemma LastApart(store: map<FsPath, StacObject>, rank: FsPath -> nat, bound: nat, cs: seq<FsPath>)
    requires Ranked(store, rank)
    requires forall c :: c in cs ==> rank(c) < bound
    requires |cs| > 0 && SiblingsApart(store, rank, cs)
    ensures SiblingsApart(store, rank, cs[..|cs| - 1])
    ensures DescSeq(store, rank, bound, cs[..|cs| - 1]) !! Desc(store, rank, cs[|cs| - 1])
  {
    var front := cs[..|cs| - 1];
    assert forall j :: 0 <= j < |front| ==> front[j] == cs[j];
    forall q | q in DescSeq(store, rank, bound, front) ensures q !in Desc(store, rank, cs[|cs| - 1])
    {
      DescSeqMember(store, rank, bound, front, q);
      var j :| 0 <= j < |front| && q in Desc(store, rank, front[j]);
      assert q in Desc(store, rank, cs[j]);
    }
  }

  /** `traverse` on a tree that completes posts every reachable object
      exactly once. */
  lemma ExactlyOnce(store: map<FsPath, StacObject>, respond: Responder, rank: FsPath -> nat,
                    p: FsPath, history: seq<Request>)
    requires Ranked(store, rank) && IsTree(store, rank)
    requires Walk(store, respond, rank, p, history).outcome.Completed?
    ensures var posted := Walk(store, respond, rank, p, history).posted;
            && Paths(posted) == Desc(store, rank, p)
            && |posted| == |Desc(store, rank, p)|
  {
    var posted := Walk(store, respond, rank, p, history).posted;
    WalkCovers(store, respond, rank, p, history);
    WalkOnce(store, respond, rank, p, history);
    DistinctCard(posted);
  }

  lemma {:induction false} DistinctCard(posted: seq<Upload<FsPath>>)
    requires Distinct(posted)
    ensures |Paths(posted)| == |posted|
  {
    if posted != [] {
      var init := posted[..|posted| - 1];
      var u := posted[|posted| - 1];
      assert posted == init + [u];
      assert Distinct(init);
      DistinctCard(init);
      PathsAppend(init, [u]);
      PathsSingle(u);
      assert u.path !in Paths(init);
    }
  }
}
