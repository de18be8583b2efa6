/** The entry form: two text fields, an error message, the Join button's
    guarded navigation and the "new room" link that fills in a room id. The
    route string it navigates to is read back the way `URLSearchParams`
    reads a query string. */
module JoinPage {
  import opened Wrappers
  import JsText

  const MissingIdentity := "Both Room ID and Username are required!"

  /** The guard of `joinRoom`: neither field is blank after trimming. */
  predicate CanJoin(roomId: string, username: string) {
    !JsText.Blank(roomId) && !JsText.Blank(username)
  }

  predicate AllSpace(s: string) {
    forall i :: 0 <= i < |s| ==> JsText.IsJsSpace(s[i])
  }

  /** The route of a successful join, built from the untrimmed field values
      and without URL encoding. */
  function DashboardRoute(roomId: string, username: string): string {
    "/Dashboard?room=" + roomId + "&user=" + username
  }

  /** The query part of a route: after the first `?`, up to the first `#`. */
  function SearchOf(route: string): string {
    JsText.Before(JsText.After(route, '?'), '#')
  }

  /** The value of the first non-empty `name=value` piece named `key`; a piece
      without `=` has the empty value. Percent-decoding and `+` are not handled. */
  function FindParam(pieces: seq<string>, key: string): Option<string> {
    if pieces == [] then None
    else if pieces[0] != "" && JsText.Before(pieces[0], '=') == key then Some(JsText.After(pieces[0], '='))
    else FindParam(pieces[1..], key)
  }

  /** `new URLSearchParams(search).get(key)` on the route string. */
  function QueryGet(route: string, key: string): Option<string> {
    FindParam(JsText.SplitOn(SearchOf(route), '&'), key)
  }

  /** Characters that would change how the query is read back. */
  predicate QuerySafe(s: string) {
    '&' !in s && '#' !in s && '%' !in s && '+' !in s
  }

  /** Exactly the fields that contain something other than white space are
      accepted: an empty or whitespace-only room id or username is refused. */
  lemma JoinGuard(roomId: string, username: string)
    ensures CanJoin(roomId, username) <==> !AllSpace(roomId) && !AllSpace(username)
  {
  }

  lemma NoSeparator(s: string, sep: char)
    requires sep !in s
    ensures JsText.Before(s, sep) == s
  {
  }

  /** A dashboard route is the path, a `?`, and the query. */
  lemma RouteShape(roomId: string, username: string)
    ensures DashboardRoute(roomId, username) == "/Dashboard" + ['?'] + ("room=" + roomId + "&user=" + username)
  {
  }

  /** The query part of a dashboard route is everything after its `?`. */
  lemma SearchOfRoute(roomId: string, username: string)
    requires '#' !in roomId && '#' !in username
    ensures SearchOf(DashboardRoute(roomId, username)) == "room=" + roomId + "&user=" + username
  {
    var query := "room=" + roomId + "&user=" + username;
    RouteShape(roomId, username);
    JsText.AfterJoin("/Dashboard", '?', query);
    assert JsText.After(DashboardRoute(roomId, username), '?') == query;
    NoSeparator(query, '#');
  }

  /** A `name=value` piece whose name has no `=` is read back as that pair. */
  lemma ReadPiece(name: string, value: string, rest: seq<string>)
    requires name != "" && '=' !in name
    ensures FindParam([name + "=" + value] + rest, name) == Some(value)
  {
    JsText.BeforeJoin(name, '=', value);
    JsText.AfterJoin(name, '=', value);
  }

  /** The query of a dashboard route splits into the room piece and the user piece. */
  lemma QueryPieces(roomId: string, username: string)
    requires '&' !in roomId && '&' !in username
    ensures JsText.SplitOn("room=" + roomId + "&user=" + username, '&') == ["room=" + roomId, "user=" + username]
  {
    var roomPiece, userPiece := "room=" + roomId, "user=" + username;
    assert "&user=" == ['&'] + "user=";
    assert "room=" + roomId + "&user=" + username == roomPiece + ['&'] + userPiece;
    JsText.SplitOnJoin(roomPiece, '&', userPiece);
    JsText.SplitOnNone(userPiece, '&');
  }

  /** The two query pieces are read back as their values. */
  lemma ReadPieces(roomId: string, username: string)
    ensures FindParam(["room=" + roomId, "user=" + username], "room") == Some(roomId)
    ensures FindParam(["room=" + roomId, "user=" + username], "user") == Some(username)
  {
    var roomPiece, userPiece := "room=" + roomId, "user=" + username;
    assert "room" + "=" + roomId == roomPiece && "user" + "=" + username == userPiece;
    ReadPiece("room", roomId, [userPiece]);
    assert [roomPiece] + [userPiece] == [roomPiece, userPiece];
    JsText.BeforeJoin("room", '=', roomId);
    assert FindParam([roomPiece, userPiece], "user") == FindParam([userPiece], "user");
    ReadPiece("user", username, []);
    assert [userPiece] + [] == [userPiece];
  }

  /** Reading the route string's query parameters gives back the room id
      and the username it was built from, as long as neither holds a
      character that the query syntax gives a meaning to. */
  lemma RouteRoundTrip(roomId: string, username: string)
    requires QuerySafe(roomId) && QuerySafe(username)
    ensures QueryGet(DashboardRoute(roomId, username), "room") == Some(roomId)
    ensures QueryGet(DashboardRoute(roomId, username), "user") == Some(username)
  {
    var route := DashboardRoute(roomId, username);
    SearchOfRoute(roomId, username);
    QueryPieces(roomId, username);
    var pieces := JsText.SplitOn(SearchOf(route), '&');
    assert pieces == ["room=" + roomId, "user=" + username];
    ReadPieces(roomId, username);
  }

  /** The generated room id is the token's characters 2 to 5: at most four of
      them, fewer when the token is shorter, none when it has at most two. */
  lemma NewRoomIdShape(token: string)
    ensures var r := JsText.Substring(token, 2, 6);
      |r| == (if |token| <= 2 then 0 else if |token| >= 6 then 4 else |token| - 2) &&
      forall i :: 0 <= i < |r| ==> r[i] == token[2 + i]
  {
    if |token| <= 2 {
      JsText.SubstringClamps(token, 2, 6);
    }
  }

  /** A token whose third character is not white space gives a room id that
      the join guard accepts. */
  lemma NewRoomIdNotBlank(token: string)
    requires |token| > 2 && !JsText.IsJsSpace(token[2])
    ensures !JsText.Blank(JsText.Substring(token, 2, 6))
  {
    var r := JsText.Substring(token, 2, 6);
    NewRoomIdShape(token);
    assert r[0] == token[2];
    JsText.BlankIffAllSpace(r);
  }

  class JoinPage {
    var roomId: string
    var username: string
    var error: string

    constructor ()
      ensures roomId == "" && username == "" && error == ""
    {
      roomId, username, error := "", "", "";
    }

    /** Typing in the room id field. */
    method OnRoomIdInput(value: string)
      modifies this`roomId
      ensures roomId == value
    {
      roomId := value;
    }

    /** Typing in the username field. */
    method OnUsernameInput(value: string)
      modifies this`username
      ensures username == value
    {
      username := value;
    }

    /** `joinRoom`: with a blank field, the error message is set and there is
        no navigation; otherwise the route to navigate to. The fields are
        never changed, and a successful join leaves the message as it was. */
    method JoinRoom() returns (route: Option<string>)
      modifies this`error
      ensures route.Some? <==> CanJoin(roomId, username)
      ensures route.Some? ==> route.value == DashboardRoute(roomId, username) && error == old(error)
      ensures route.None? ==> error == MissingIdentity
    {
      if JsText.Blank(roomId) || JsText.Blank(username) {
        error := MissingIdentity;
        return None;
      }
      route := Some(DashboardRoute(roomId, username));
    }

    /** `createNewRoom` with the random token as input: the room id becomes
        the token's characters 2 to 5 and the error message is cleared. */
    method CreateNewRoom(token: string)
      modifies this`roomId, this`error
      ensures roomId == JsText.Substring(token, 2, 6)
      ensures |roomId| <= 4
      ensures error == ""
    {
      roomId := JsText.Substring(token, 2, 6);
      error := "";
    }
  }
}
