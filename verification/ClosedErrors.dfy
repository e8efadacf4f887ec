/** Deciding whether an error tree says nothing more than "already closed". */
module ClosedErrors {
  import opened Wrappers

  /** A Go error: a leaf, one wrapping another, or one joining several. A nil error is `None`. */
  datatype Error =
    | ErrClosed
    | Other(message: string)
    | Wrapping(child: Option<Error>)
    | Joining(children: seq<Option<Error>>)

  predicate IsOnlyClosed(e: Option<Error>)
    decreases e
  {
    match e
    case None => true
    case Some(Joining(children)) =>
      children != [] && forall i :: 0 <= i < |children| ==> IsOnlyClosed(children[i])
    case Some(Wrapping(child)) => child.Some? && IsOnlyClosed(child)
    case Some(leaf) => leaf == ErrClosed
  }

  /** Following `path` through the tree ends at something that is not "closed". */
  predicate EndsElsewhere(e: Option<Error>, path: seq<nat>)
    decreases e
  {
    match e
    case None => false
    case Some(ErrClosed) => false
    case Some(Other(_)) => path == []
    case Some(Wrapping(child)) =>
      if child.None? then path == [] else path != [] && path[0] == 0 && EndsElsewhere(child, path[1..])
    case Some(Joining(children)) =>
      if children == [] then path == []
      else path != [] && path[0] < |children| && EndsElsewhere(children[path[0]], path[1..])
  }

  /** No path leads to another failure. */
  ghost predicate NothingElse(e: Option<Error>) {
    forall path: seq<nat> :: !EndsElsewhere(e, path)
  }

  /** Only-closed means that no path, however deep, leads to another failure or to a dead end. */
  lemma {:induction false} OnlyClosedExact(e: Option<Error>)
    ensures IsOnlyClosed(e) <==> NothingElse(e)
    decreases e
  {
    match e
    case None =>
    case Some(Joining(children)) =>
      forall i | 0 <= i < |children|
        ensures IsOnlyClosed(children[i]) <==> NothingElse(children[i])
      {
        OnlyClosedExact(children[i]);
      }
      if children == [] {
        assert EndsElsewhere(e, []);
      } else if !IsOnlyClosed(e) {
        var i :| 0 <= i < |children| && !IsOnlyClosed(children[i]);
        var path: seq<nat> :| EndsElsewhere(children[i], path);
        assert ([i] + path)[1..] == path;
        assert EndsElsewhere(e, [i] + path);
      } else {
        forall path: seq<nat> ensures !EndsElsewhere(e, path) {
          assert path != [] && path[0] < |children| ==> !EndsElsewhere(children[path[0]], path[1..]);
        }
      }
    case Some(Wrapping(child)) =>
      if child.None? {
        assert EndsElsewhere(e, []);
      } else {
        OnlyClosedExact(child);
        if !IsOnlyClosed(child) {
          var path: seq<nat> :| EndsElsewhere(child, path);
          assert ([0] + path)[1..] == path;
          assert EndsElsewhere(e, [0] + path);
        } else {
          forall path: seq<nat> ensures !EndsElsewhere(e, path) {
            assert path != [] ==> !EndsElsewhere(child, path[1..]);
          }
        }
      }
    case Some(ErrClosed) =>
    case Some(Other(_)) =>
      assert EndsElsewhere(e, []);
  }
}
