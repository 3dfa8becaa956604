/** Error trees and their classification (reconciler/user_action.go, reconciler/stop.go). */
module ErrorTree {
  import opened Collections

  /** An error with what it wraps. A nil error is `None` of an `Option<Err>`. */
  datatype Err =
    | Marked(userAction: bool, awaits: bool, cause: Option<Err>)  // implements UserActionRequiredError
    | GitHubResponse(status: Option<int>)  // *github.ErrorResponse; None without an HTTP response
    | KubeStatus(notFound: bool)  // apierrors.APIStatus
    | Joined(errs: seq<Err>)  // Unwrap() []error
    | Wrapped(cause: Option<Err>)  // Unwrap() error
    | Readable(inner: Err)  // readableError
    | StopReconciliation(message: string)
    | RateLimitReached(reset: Option<int>)  // of the rate limit library
    | RateLimited(resetTime: int)  // ghclient.RateLimitedError
    | RequiresSpread(delay: int)
    | Plain(message: string)

  const UNPROCESSABLE := 422

  predicate RequiresUserAction(e: Err) {
    match e
    case Marked(userAction, _, _) => userAction
    case GitHubResponse(status) => status == Some(UNPROCESSABLE)
    case KubeStatus(notFound) => notFound
    case Joined(errs) => errs != [] && forall i :: 0 <= i < |errs| ==> RequiresUserAction(errs[i])
    case Wrapped(cause) => cause.Some? && RequiresUserAction(cause.value)
    case Readable(inner) => RequiresUserAction(inner)
    case _ => false
  }

  /** The errors a tree consists of: joins and plain wrappers are looked through, an empty one stands for itself. */
  function Leaves(e: Err): seq<Err> {
    match e
    case Joined(errs) => if errs == [] then [e] else LeavesOf(errs)
    case Wrapped(cause) => if cause.None? then [e] else Leaves(cause.value)
    case Readable(inner) => Leaves(inner)
    case _ => [e]
  }

  function LeavesOf(errs: seq<Err>): seq<Err> {
    if errs == [] then [] else Leaves(errs[0]) + LeavesOf(errs[1..])
  }

  /** A marked error, a 422 response or a NotFound status. */
  predicate UserCanFix(leaf: Err) {
    match leaf
    case Marked(userAction, _, _) => userAction
    case GitHubResponse(status) => status == Some(UNPROCESSABLE)
    case KubeStatus(notFound) => notFound
    case _ => false
  }

  /** An error requires user action exactly when it consists only of errors that do. */
  lemma {:induction false} RequiresUserActionIff(e: Err)
    ensures RequiresUserAction(e) <==> forall l :: l in Leaves(e) ==> UserCanFix(l)
    decreases e, 0
  {
    match e {
      case Joined(errs) =>
        if errs != [] {
          AllRequireUserActionIff(errs);
          assert Leaves(e) == LeavesOf(errs);
          assert RequiresUserAction(e) <==> forall i :: 0 <= i < |errs| ==> RequiresUserAction(errs[i]);
        } else {
          SingleLeaf(e);
        }
      case Wrapped(cause) =>
        if cause.Some? {
          RequiresUserActionIff(cause.value);
        } else {
          SingleLeaf(e);
        }
      case Readable(inner) =>
        RequiresUserActionIff(inner);
      case _ =>
        SingleLeaf(e);
    }
  }

  lemma {:induction false} SingleLeaf(e: Err)
    requires Leaves(e) == [e] && RequiresUserAction(e) == UserCanFix(e)
    ensures RequiresUserAction(e) <==> forall l :: l in Leaves(e) ==> UserCanFix(l)
  {
    assert e in Leaves(e);
  }

  lemma {:induction false} AllRequireUserActionIff(errs: seq<Err>)
    ensures (forall i :: 0 <= i < |errs| ==> RequiresUserAction(errs[i])) <==>
            forall l :: l in LeavesOf(errs) ==> UserCanFix(l)
    decreases errs, |errs|
  {
    if errs != [] {
      RequiresUserActionIff(errs[0]);
      AllRequireUserActionIff(errs[1..]);
      ForallCons(errs);
      assert forall l :: l in LeavesOf(errs) <==> l in Leaves(errs[0]) || l in LeavesOf(errs[1..]);
    }
  }

  lemma {:induction false} ForallCons(errs: seq<Err>)
    requires errs != []
    ensures (forall i :: 0 <= i < |errs| ==> RequiresUserAction(errs[i])) <==>
            RequiresUserAction(errs[0]) && forall i :: 0 <= i < |errs[1..]| ==> RequiresUserAction(errs[1..][i])
  {
    var rest := errs[1..];
    if RequiresUserAction(errs[0]) && forall i :: 0 <= i < |rest| ==> RequiresUserAction(rest[i]) {
      forall i | 0 <= i < |errs| ensures RequiresUserAction(errs[i]) {
        assert i > 0 ==> errs[i] == rest[i - 1];
      }
    }
  }

  predicate AwaitsGitHubChange(e: Err) {
    match e
    case Marked(_, awaits, cause) => awaits || (cause.Some? && AwaitsGitHubChange(cause.value))
    case GitHubResponse(status) => status == Some(UNPROCESSABLE)
    case Joined(errs) => exists i :: 0 <= i < |errs| && AwaitsGitHubChange(errs[i])
    case Wrapped(cause) => cause.Some? && AwaitsGitHubChange(cause.value)
    case Readable(inner) => AwaitsGitHubChange(inner)
    case _ => false
  }

  /** `unprocessableEntityErrors`: the 422 responses of the tree, in order. */
  function Unprocessable(e: Err): seq<Err> {
    match e
    case GitHubResponse(status) => if status == Some(UNPROCESSABLE) then [e] else []
    case Marked(_, _, cause) => if cause.None? then [] else Unprocessable(cause.value)
    case Joined(errs) => UnprocessableOf(errs)
    case Wrapped(cause) => if cause.None? then [] else Unprocessable(cause.value)
    case Readable(inner) => Unprocessable(inner)
    case _ => []
  }

  function UnprocessableOf(errs: seq<Err>): seq<Err> {
    if errs == [] then [] else Unprocessable(errs[0]) + UnprocessableOf(errs[1..])
  }

  /** `errors.As`: the first error of the tree that has the wanted type, parents before children. */
  function FindFirst(e: Err, wanted: Err -> bool): Option<Err> {
    if wanted(e) then Some(e)
    else
      match e
      case Marked(_, _, cause) => if cause.None? then None else FindFirst(cause.value, wanted)
      case Joined(errs) => FindFirstOf(errs, wanted)
      case Wrapped(cause) => if cause.None? then None else FindFirst(cause.value, wanted)
      case Readable(inner) => FindFirst(inner, wanted)
      case _ => None
  }

  function FindFirstOf(errs: seq<Err>, wanted: Err -> bool): Option<Err> {
    if errs == [] then None
    else
      var found := FindFirst(errs[0], wanted);
      if found.Some? then found else FindFirstOf(errs[1..], wanted)
  }

  /** The tree contains an error of the wanted type. */
  predicate Contains(e: Err, wanted: Err -> bool) {
    || wanted(e)
    || match e
       case Marked(_, _, cause) => cause.Some? && Contains(cause.value, wanted)
       case Joined(errs) => exists i :: 0 <= i < |errs| && Contains(errs[i], wanted)
       case Wrapped(cause) => cause.Some? && Contains(cause.value, wanted)
       case Readable(inner) => Contains(inner, wanted)
       case _ => false
  }

  /** The search finds an error of the wanted type exactly when the tree contains one. */
  lemma {:induction false} FindFirstIff(e: Err, wanted: Err -> bool)
    ensures FindFirst(e, wanted).Some? <==> Contains(e, wanted)
    ensures FindFirst(e, wanted).Some? ==> wanted(FindFirst(e, wanted).value)
    decreases e, 0
  {
    match e {
      case Marked(_, _, cause) =>
        if cause.Some? {
          FindFirstIff(cause.value, wanted);
        }
      case Joined(errs) =>
        FindFirstOfIff(errs, wanted);
      case Wrapped(cause) =>
        if cause.Some? {
          FindFirstIff(cause.value, wanted);
        }
      case Readable(inner) =>
        FindFirstIff(inner, wanted);
      case _ =>
    }
  }

  lemma {:induction false} FindFirstOfIff(errs: seq<Err>, wanted: Err -> bool)
    ensures FindFirstOf(errs, wanted).Some? <==> exists i :: 0 <= i < |errs| && Contains(errs[i], wanted)
    ensures FindFirstOf(errs, wanted).Some? ==> wanted(FindFirstOf(errs, wanted).value)
    decreases errs, |errs|
  {
    if errs != [] {
      FindFirstIff(errs[0], wanted);
      FindFirstOfIff(errs[1..], wanted);
      if i :| 0 <= i < |errs| && Contains(errs[i], wanted) {
        assert i > 0 ==> errs[1..][i - 1] == errs[i];
      }
      if i :| 0 <= i < |errs[1..]| && Contains(errs[1..][i], wanted) {
        assert errs[i + 1] == errs[1..][i];
      }
    }
  }

  /** `asStopReconciliation`: the message of the stop contained in an error. */
  function StopOf(e: Option<Err>): Option<string> {
    if e.None? then None
    else
      var found := FindFirst(e.value, (x: Err) => x.StopReconciliation?);
      if found.Some? && found.value.StopReconciliation? then Some(found.value.message) else None
  }

  /** The errors of a tree, parents before children and joined ones in order. */
  function Nodes(e: Err): seq<Err> {
    [e] + match e
          case Marked(_, _, cause) => if cause.None? then [] else Nodes(cause.value)
          case Joined(errs) => NodesOf(errs)
          case Wrapped(cause) => if cause.None? then [] else Nodes(cause.value)
          case Readable(inner) => Nodes(inner)
          case _ => []
  }

  function NodesOf(errs: seq<Err>): seq<Err> {
    if errs == [] then [] else Nodes(errs[0]) + NodesOf(errs[1..])
  }

  /** `found` is the first of the errors that has the wanted type; None if there is none. */
  ghost predicate IsFirst(nodes: seq<Err>, wanted: Err -> bool, found: Option<Err>) {
    match found
    case None => forall i :: 0 <= i < |nodes| ==> !wanted(nodes[i])
    case Some(x) =>
      wanted(x) && exists i :: 0 <= i < |nodes| && nodes[i] == x && forall j :: 0 <= j < i ==> !wanted(nodes[j])
  }

  lemma FirstOfTwo(xs: seq<Err>, ys: seq<Err>, wanted: Err -> bool, first: Option<Err>, second: Option<Err>)
    requires IsFirst(xs, wanted, first) && IsFirst(ys, wanted, second)
    ensures IsFirst(xs + ys, wanted, if first.Some? then first else second)
  {
    var all := xs + ys;
    if first.Some? {
      var i :| 0 <= i < |xs| && xs[i] == first.value && forall j :: 0 <= j < i ==> !wanted(xs[j]);
      assert all[i] == first.value;
    } else if second.Some? {
      var i :| 0 <= i < |ys| && ys[i] == second.value && forall j :: 0 <= j < i ==> !wanted(ys[j]);
      assert all[|xs| + i] == second.value;
    }
  }

  /** The search finds the first error of the wanted type. */
  lemma {:induction false} FindFirstIsFirst(e: Err, wanted: Err -> bool)
    ensures IsFirst(Nodes(e), wanted, FindFirst(e, wanted))
    decreases e, 0
  {
    var own := if wanted(e) then Some(e) else None;
    assert own.Some? ==> [e][0] == e;
    var below, found := [], None;
    match e {
      case Marked(_, _, cause) =>
        if cause.Some? {
          FindFirstIsFirst(cause.value, wanted);
          below, found := Nodes(cause.value), FindFirst(cause.value, wanted);
        }
      case Joined(errs) =>
        FirstOfJoined(errs, wanted);
        below, found := NodesOf(errs), FindFirstOf(errs, wanted);
      case Wrapped(cause) =>
        if cause.Some? {
          FindFirstIsFirst(cause.value, wanted);
          below, found := Nodes(cause.value), FindFirst(cause.value, wanted);
        }
      case Readable(inner) =>
        FindFirstIsFirst(inner, wanted);
        below, found := Nodes(inner), FindFirst(inner, wanted);
      case _ =>
    }
    FirstOfTwo([e], below, wanted, own, found);
  }

  lemma {:induction false} FirstOfJoined(errs: seq<Err>, wanted: Err -> bool)
    ensures IsFirst(NodesOf(errs), wanted, FindFirstOf(errs, wanted))
    decreases errs, |errs|
  {
    if errs != [] {
      FindFirstIsFirst(errs[0], wanted);
      FirstOfJoined(errs[1..], wanted);
      FirstOfTwo(Nodes(errs[0]), NodesOf(errs[1..]), wanted, FindFirst(errs[0], wanted), FindFirstOf(errs[1..], wanted));
    }
  }

  /** The message is that of the first stop in the tree. */
  lemma {:induction false} StopOfIs(e: Err)
    ensures IsFirst(Nodes(e), (x: Err) => x.StopReconciliation?,
                    match StopOf(Some(e)) case None => None case Some(m) => Some(StopReconciliation(m)))
  {
    FindFirstIsFirst(e, (x: Err) => x.StopReconciliation?);
    FindFirstIff(e, (x: Err) => x.StopReconciliation?);
  }

  /** `withReadableMessage`. */
  function WithReadableMessage(e: Err): Err {
    if Unprocessable(e) == [] then e else Readable(e)
  }

  /** An error is reworded exactly when its tree contains a 422 response. */
  lemma {:induction false} ReadableIff(e: Err)
    ensures WithReadableMessage(e) ==
            if Contains(e, (x: Err) => x == GitHubResponse(Some(422))) then Readable(e) else e
  {
    UnprocessableIff(e);
  }

  lemma {:induction false} UnprocessableIff(e: Err)
    ensures Unprocessable(e) != [] <==> Contains(e, (x: Err) => x == GitHubResponse(Some(422)))
  {
    match e {
      case Marked(_, _, cause) =>
        if cause.Some? {
          UnprocessableIff(cause.value);
        }
      case Joined(errs) =>
        UnprocessableOfSome(errs);
        forall i | 0 <= i < |errs| {
          UnprocessableIff(errs[i]);
        }
      case Wrapped(cause) =>
        if cause.Some? {
          UnprocessableIff(cause.value);
        }
      case Readable(inner) =>
        UnprocessableIff(inner);
      case _ =>
    }
  }

  lemma {:induction false} StateMarkerIff(e: Err)
    ensures HasStateMarker(e) <==> Contains(e, (x: Err) => x.Marked? && x.awaits)
  {
    match e {
      case Marked(_, _, cause) =>
        if cause.Some? {
          StateMarkerIff(cause.value);
        }
      case Joined(errs) =>
        forall i | 0 <= i < |errs| {
          StateMarkerIff(errs[i]);
        }
      case Wrapped(cause) =>
        if cause.Some? {
          StateMarkerIff(cause.value);
        }
      case Readable(inner) =>
        StateMarkerIff(inner);
      case _ =>
    }
  }

  /** Rewording an error changes none of its classifications. */
  lemma {:induction false} ReadableKeepsClassification(e: Err, wanted: Err -> bool)
    requires !wanted(Readable(e))
    ensures RequiresUserAction(WithReadableMessage(e)) == RequiresUserAction(e)
    ensures AwaitsGitHubChange(WithReadableMessage(e)) == AwaitsGitHubChange(e)
    ensures FindFirst(WithReadableMessage(e), wanted) == FindFirst(e, wanted)
  {
  }

  lemma {:induction false} UnprocessableOfSome(errs: seq<Err>)
    ensures UnprocessableOf(errs) != [] <==> exists i :: 0 <= i < |errs| && Unprocessable(errs[i]) != []
  {
    if errs != [] {
      UnprocessableOfSome(errs[1..]);
      if i :| 0 <= i < |errs| && Unprocessable(errs[i]) != [] {
        assert i > 0 ==> errs[1..][i - 1] == errs[i];
      }
      if i :| 0 <= i < |errs[1..]| && Unprocessable(errs[1..][i]) != [] {
        assert errs[i + 1] == errs[1..][i];
      }
    }
  }

  /** The tree contains an error that says it awaits GitHub. */
  predicate HasStateMarker(e: Err) {
    match e
    case Marked(_, awaits, cause) => awaits || (cause.Some? && HasStateMarker(cause.value))
    case Joined(errs) => exists i :: 0 <= i < |errs| && HasStateMarker(errs[i])
    case Wrapped(cause) => cause.Some? && HasStateMarker(cause.value)
    case Readable(inner) => HasStateMarker(inner)
    case _ => false
  }

  /** A tree awaits GitHub exactly when it has such a marker or a 422, so a reworded error always does. */
  lemma {:induction false} AwaitsIff(e: Err)
    ensures AwaitsGitHubChange(e) <==> HasStateMarker(e) || Unprocessable(e) != []
  {
    match e {
      case Marked(_, _, cause) =>
        if cause.Some? {
          AwaitsIff(cause.value);
        }
      case Joined(errs) =>
        UnprocessableOfSome(errs);
        forall i | 0 <= i < |errs| {
          AwaitsIff(errs[i]);
        }
      case Wrapped(cause) =>
        if cause.Some? {
          AwaitsIff(cause.value);
        }
      case Readable(inner) =>
        AwaitsIff(inner);
      case _ =>
    }
  }
}
