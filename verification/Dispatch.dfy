/** dbus.go's handlerForPath: which registered handler gets a method call. A handler is registered
    for a path or, with a star as the last element, for everything below one. The path itself is
    tried first and then ever shorter prefixes; what is found is the handler of the longest key
    that fits, and failure means that no key does. */
module Dispatch {
  import opened Bytes

  const SLASH: byte := 47 /* '/' */
  const STAR: byte := 42 /* '*' */

  /** strings.LastIndex(s, "/"). */
  function LastSlash(s: seq<byte>): (r: int)
    ensures -1 <= r < |s|
    ensures r >= 0 ==> s[r] == SLASH
    ensures forall i :: r < i < |s| ==> s[i] != SLASH
  {
    if s == [] then -1
    else if s[|s| - 1] == SLASH then |s| - 1
    else LastSlash(s[..|s| - 1])
  }

  /** The wildcard key of the prefix that ends in the slash at `i`, or the bare star for -1. */
  function Wildcard(path: seq<byte>, i: int): seq<byte>
    requires -1 <= i < |path|
  {
    path[..i + 1] + [STAR]
  }

  /** Whether the wildcard at `i` is ever looked up for `path`: after each slash, and before the
      first character only if there is a slash but not at the start. */
  ghost predicate Candidate(path: seq<byte>, i: int) {
    |path| > 0 && -1 <= i < |path| &&
    if i >= 0 then path[i] == SLASH else path[0] != SLASH && SLASH in path
  }

  /** `key` is the most specific registered key for `path`. */
  ghost predicate BestKey<H>(handlers: map<seq<byte>, H>, path: seq<byte>, key: seq<byte>) {
    key in handlers &&
    (key == path ||
      (path !in handlers &&
        exists i :: Candidate(path, i) && key == Wildcard(path, i) &&
          forall j :: i < j && Candidate(path, j) ==> Wildcard(path, j) !in handlers))
  }

  ghost predicate NoKey<H>(handlers: map<seq<byte>, H>, path: seq<byte>) {
    path !in handlers && forall i :: Candidate(path, i) ==> Wildcard(path, i) !in handlers
  }

  /** The first n octets of the path and a star are a key: they end in a slash, or they are none and
      there is a slash further on. */
  ghost predicate KeyAt(path: seq<byte>, n: int) {
    0 <= n <= |path| && if n > 0 then path[n - 1] == 47 else 47 in path && path[0] != 47
  }

  lemma KeysOf(path: seq<byte>)
    ensures forall n :: KeyAt(path, n) ==> Candidate(path, n - 1) && Wildcard(path, n - 1) == path[..n] + [42]
    ensures forall i :: Candidate(path, i) ==> KeyAt(path, i + 1) && Wildcard(path, i) == path[..i + 1] + [42]
  {
  }

  class Router<H> {
    var objectPathHandlers: map<seq<byte>, H>

    constructor ()
      ensures objectPathHandlers == map[]
    {
      objectPathHandlers := map[];
    }

    /** The source panics if the path is taken. */
    method RegisterObjectPath(path: seq<byte>, handler: H)
      requires path !in objectPathHandlers
      modifies this
      ensures objectPathHandlers == old(objectPathHandlers)[path := handler]
    {
      objectPathHandlers := objectPathHandlers[path := handler];
    }

    /** The source panics if the path is not registered. */
    method UnregisterObjectPath(path: seq<byte>)
      requires path in objectPathHandlers
      modifies this
      ensures objectPathHandlers == old(objectPathHandlers) - {path}
    {
      objectPathHandlers := objectPathHandlers - {path};
    }

    /** The exact path's handler if there is one, else that of the longest registered prefix
        wildcard; none if and only if no candidate key is registered. */
    method HandlerForPath(objpath: seq<byte>) returns (found: Option<H>, ghost key: seq<byte>)
      ensures found.Some? ==> BestKey(objectPathHandlers, objpath, key) && found.value == objectPathHandlers[key]
      ensures found.None? <==> NoKey(objectPathHandlers, objpath)
      ensures objpath in objectPathHandlers ==> found == Some(objectPathHandlers[objpath])
      ensures objpath !in objectPathHandlers && found.Some? ==>
        exists n :: KeyAt(objpath, n) && objpath[..n] + [42] in objectPathHandlers
          && found.value == objectPathHandlers[objpath[..n] + [42]]
          && forall k :: n < k && KeyAt(objpath, k) ==> objpath[..k] + [42] !in objectPathHandlers
      ensures found.None? ==> forall n :: KeyAt(objpath, n) ==> objpath[..n] + [42] !in objectPathHandlers
    {
      KeysOf(objpath);
      var path := objpath;
      key := path;
      var idx := LastSlash(path) + 1;
      // The wildcard position looked up last; |objpath| stands for the exact path.
      ghost var at := |objpath|;
      while true
        invariant -1 <= idx <= |objpath| && -1 <= at <= |objpath|
        invariant at == |objpath| ==> path == objpath && idx == LastSlash(objpath) + 1
        invariant at < |objpath| ==>
            objpath !in objectPathHandlers && Candidate(objpath, at) && path == Wildcard(objpath, at) && idx == at
        invariant forall j :: at < j && Candidate(objpath, j) ==> Wildcard(objpath, j) !in objectPathHandlers
        decreases idx, at
      {
        key := path;
        if path in objectPathHandlers { return Some(objectPathHandlers[path]), path; }
        if idx < 1 {
          return None, path;
        }
        ghost var before := idx;
        assert path[..idx] == objpath[..idx];
        idx := LastSlash(path[..idx]);
        path := path[..idx + 1] + [STAR];
        assert path == Wildcard(objpath, idx);
        at := idx;
      }
    }
  }
}
