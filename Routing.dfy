/**
 * Request dispatch: the chain of tests on the request method and URL that
 * picks one of five behaviours. GET and POST need the URL to be exactly
 * `/users`; PUT and DELETE take any URL that starts with `/users/` and read
 * the user id as the third `/`-separated segment of the URL.
 */
module Routing {

  datatype Route =
    | ListUsers
    | CreateUser
    | UpdateUser(id: string)
    | DeleteUser(id: string)
    | RouteNotFound

  const UsersPath := "/users"
  const UsersPrefix := "/users/"

  /** `String.prototype.startsWith`. */
  predicate StartsWith(s: string, prefix: string) {
    |prefix| <= |s| && s[..|prefix|] == prefix
  }

  /**
   * `String.prototype.split` on a one-character separator: the maximal runs
   * between separators, so a string with n separators has n + 1 segments
   * (empty ones included, and `""` splits to `[""]`).
   */
  function Split(s: string, sep: char): (parts: seq<string>)
    ensures |parts| >= 1
    decreases |s|
  {
    if s == [] then [""]
    else
      var rest := Split(s[1..], sep);
      if s[0] == sep then [""] + rest
      else [[s[0]] + rest[0]] + rest[1..]
  }

  /** `Array.prototype.join`, the inverse of `Split`. */
  function Join(parts: seq<string>, sep: char): string
    requires |parts| >= 1
  {
    if |parts| == 1 then parts[0] else parts[0] + [sep] + Join(parts[1..], sep)
  }

  /** The number of occurrences of `c` in `s`. */
  function Count(s: string, c: char): nat {
    if s == [] then 0 else (if s[0] == c then 1 else 0) + Count(s[1..], c)
  }

  /** The longest prefix of `s` without `sep`: the first segment of `Split(s, sep)`. */
  function UpTo(s: string, sep: char): (p: string)
    ensures |p| <= |s| && s[..|p|] == p && sep !in p
    ensures |p| < |s| ==> s[|p|] == sep
  {
    if s == [] || s[0] == sep then [] else [s[0]] + UpTo(s[1..], sep)
  }

  lemma {:induction false} SplitJoin(s: string, sep: char)
    ensures Join(Split(s, sep), sep) == s
    decreases |s|
  {
    if s != [] {
      SplitJoin(s[1..], sep);
      var rest := Split(s[1..], sep);
      if s[0] != sep {
        if |rest| > 1 {
          assert ([[s[0]] + rest[0]] + rest[1..])[1..] == rest[1..];
        }
        assert s == [s[0]] + s[1..];
      } else {
        assert ([""] + rest)[1..] == rest;
      }
    }
  }

  lemma {:induction false} SplitSegments(s: string, sep: char)
    ensures |Split(s, sep)| == Count(s, sep) + 1
    ensures forall i :: 0 <= i < |Split(s, sep)| ==> sep !in Split(s, sep)[i]
    decreases |s|
  {
    if s != [] {
      SplitSegments(s[1..], sep);
      var rest := Split(s[1..], sep);
      if s[0] != sep {
        var parts := [[s[0]] + rest[0]] + rest[1..];
        forall i | 0 <= i < |parts| ensures sep !in parts[i] {
          if i > 0 { assert parts[i] == rest[i]; }
        }
      } else {
        var parts := [""] + rest;
        forall i | 0 <= i < |parts| ensures sep !in parts[i] {
          if i > 0 { assert parts[i] == rest[i - 1]; }
        }
      }
    }
  }

  /** The first segment is everything before the first separator. */
  lemma {:induction false} SplitFirst(s: string, sep: char)
    ensures Split(s, sep)[0] == UpTo(s, sep)
    ensures sep in s ==> |Split(s, sep)| >= 2
    decreases |s|
  {
    if s != [] {
      SplitFirst(s[1..], sep);
      if s[0] != sep {
        assert sep in s ==> sep in s[1..];
      }
    }
  }

  /** Splitting after a separator-free prefix and a separator drops that prefix as one segment. */
  lemma {:induction false} SplitAfter(p: string, sep: char, rest: string)
    requires sep !in p
    ensures Split(p + [sep] + rest, sep) == [p] + Split(rest, sep)
    decreases |p|
  {
    if p == [] {
      assert p + [sep] + rest == [sep] + rest;
      assert ([sep] + rest)[1..] == rest;
    } else {
      SplitAfter(p[1..], sep, rest);
      assert (p + [sep] + rest)[1..] == p[1..] + [sep] + rest;
      assert [p[0]] + p[1..] == p;
    }
  }

  /** `url.split('/')[2]`; defined for every URL the PUT and DELETE branches admit. */
  function IdOf(url: string): (id: string)
    requires StartsWith(url, UsersPrefix)
    ensures '/' !in id
  {
    var parts := Split(url, '/');
    SplitOfUsersUrl(url);
    SplitSegments(url, '/');
    parts[2]
  }

  lemma SplitOfUsersUrl(url: string)
    requires StartsWith(url, UsersPrefix)
    ensures |Split(url, '/')| >= 3
    ensures Split(url, '/')[2] == UpTo(url[|UsersPrefix|..], '/')
  {
    var rest := url[|UsersPrefix|..];
    assert url == [] + ['/'] + ("users" + ['/'] + rest);
    SplitAfter([], '/', "users" + ['/'] + rest);
    SplitAfter("users", '/', rest);
    SplitFirst(rest, '/');
  }

  /** The dispatch chain: the first matching test wins, and any other request is not found. */
  function RouteOf(verb: string, url: string): (r: Route)
    ensures r == ListUsers <==> verb == "GET" && url == UsersPath
    ensures r == CreateUser <==> verb == "POST" && url == UsersPath
    ensures r.UpdateUser? <==> verb == "PUT" && StartsWith(url, UsersPrefix)
    ensures r.DeleteUser? <==> verb == "DELETE" && StartsWith(url, UsersPrefix)
    ensures r.UpdateUser? || r.DeleteUser? ==>
      && StartsWith(url, UsersPrefix) && r.id == IdOf(url) && '/' !in r.id
      && exists tail :: url == UsersPrefix + r.id + tail && (tail == [] || tail[0] == '/')
  {
    if verb == "GET" && url == UsersPath then ListUsers
    else if verb == "POST" && url == UsersPath then CreateUser
    else if verb == "PUT" && StartsWith(url, UsersPrefix) then
      IdLocated(url);
      UpdateUser(IdOf(url))
    else if verb == "DELETE" && StartsWith(url, UsersPrefix) then
      IdLocated(url);
      DeleteUser(IdOf(url))
    else RouteNotFound
  }

  /**
   * Where the id sits in the URL: right after `/users/`, up to the next `/`
   * or the end; whatever follows it is ignored.
   */
  lemma IdLocated(url: string)
    requires StartsWith(url, UsersPrefix)
    ensures exists tail :: url == UsersPrefix + IdOf(url) + tail && (tail == [] || tail[0] == '/')
  {
    SplitOfUsersUrl(url);
    var rest := url[|UsersPrefix|..];
    var id := UpTo(rest, '/');
    var tail := rest[|id|..];
    assert rest == id + tail;
    assert url == UsersPrefix + id + tail;
  }

  /** Conversely, whatever follows `/users/` up to the next `/` or the end is the id. */
  lemma IdOfUrl(id: string, tail: string)
    requires '/' !in id
    requires tail == [] || tail[0] == '/'
    ensures StartsWith(UsersPrefix + id + tail, UsersPrefix)
    ensures IdOf(UsersPrefix + id + tail) == id
  {
    var url := UsersPrefix + id + tail;
    assert url[..|UsersPrefix|] == UsersPrefix;
    SplitOfUsersUrl(url);
    assert url[|UsersPrefix|..] == id + tail;
    UpToStops(id, tail, '/');
  }

  lemma {:induction false} UpToStops(s: string, tail: string, sep: char)
    requires sep !in s
    requires tail == [] || tail[0] == sep
    ensures UpTo(s + tail, sep) == s
  {
    if s == [] {
      assert s + tail == tail;
    } else {
      UpToStops(s[1..], tail, sep);
      assert (s + tail)[1..] == s[1..] + tail;
    }
  }

  /** `/users/a/b` names the user `a`. */
  lemma IdIgnoresLaterSegments()
    ensures RouteOf("PUT", "/users/a/b") == UpdateUser("a")
    ensures RouteOf("DELETE", "/users/a/b") == DeleteUser("a")
  {
    IdOfUrl("a", "/b");
    assert UsersPrefix + "a" + "/b" == "/users/a/b";
  }

  /** `/users/` is admitted by PUT and DELETE and names the empty id. */
  lemma EmptyIdAdmitted()
    ensures RouteOf("PUT", "/users/") == UpdateUser("")
    ensures RouteOf("DELETE", "/users/") == DeleteUser("")
  {
    IdOfUrl("", "");
    assert UsersPrefix + "" + "" == "/users/";
  }

  /** GET and POST need the exact path: a trailing slash or a query string falls through. */
  lemma ExactPathOnly()
    ensures RouteOf("GET", "/users/") == RouteNotFound
    ensures RouteOf("GET", "/users?x") == RouteNotFound
    ensures RouteOf("POST", "/users/") == RouteNotFound
    ensures RouteOf("PATCH", "/users") == RouteNotFound
    ensures RouteOf("GET", "/unknown") == RouteNotFound
  {
    assert "/users/"[..|UsersPrefix|] == UsersPrefix;
    assert !StartsWith("/users", UsersPrefix);
    assert "/users?x"[6] == '?';
    assert !StartsWith("/users?x", UsersPrefix);
  }
}
