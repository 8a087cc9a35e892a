/**
 * The access-list check of server_io.py. Reading the list from a share or
 * over HTTP is outside the model: the loaded JSON document (or its absence
 * when the source cannot be read or parsed) is passed in.
 */
module ServerIo {
  import opened Wrappers
  import opened Json
  import Text

  /**
   * `_load_remote_json`: no source, an unreadable source or a document that
   * is not a JSON object all give the empty dict.
   */
  function LoadRemoteJson(source: string, payload: Option<Value>): (d: map<string, Value>)
    ensures source != "" && payload.Some? && payload.value.Object? ==> d == payload.value.fields
    ensures !(source != "" && payload.Some? && payload.value.Object?) ==> d == map[]
  {
    if source == "" then map[]
    else if payload.Some? && payload.value.Object? then payload.value.fields
    else map[]
  }

  /**
   * `{user.lower() for user in v if isinstance(user, str)}`: the string
   * items of a list, the characters of a string, the keys of a dict, all
   * lower-cased; iterating over anything else raises a TypeError.
   */
  function LoweredStrings(v: Value): (r: Result<set<string>>)
    ensures v.List? ==> r == Ok(set k | 0 <= k < |v.items| && v.items[k].Str? :: Text.Lower(v.items[k].s))
    ensures v.Null? || v.Bool? || v.Int? || v.Float? ==> r.Err? && r.error.TypeError?
  {
    match v
    case List(items) => Ok(set k | 0 <= k < |items| && items[k].Str? :: Text.Lower(items[k].s))
    case Str(s) => Ok(set k | 0 <= k < |s| :: Text.Lower([s[k]]))
    case Object(fields) => Ok(set key | key in fields :: Text.Lower(key))
    case _ => Err(TypeError("object is not iterable"))
  }

  const Unavailable := "Access list unavailable; allowing session by default."
  const Authorized := "User authorized."
  const Refused := "User is not authorized to use CompareSet."

  /**
   * `check_access_allowed`, with the configured access-list path and the
   * document loaded from the chosen source passed in.
   */
  function CheckAccessAllowed(username: string, accessPath: Option<string>, configuredPath: string,
                              payload: Option<Value>): (r: Result<(bool, string)>)
    ensures var source := if accessPath.Some? && accessPath.value != "" then accessPath.value else configuredPath;
            source == "" ==> r == Ok((true, Unavailable))
    ensures var source := if accessPath.Some? && accessPath.value != "" then accessPath.value else configuredPath;
            var listed := LoweredStrings(Get(LoadRemoteJson(source, payload), "allowed_users", List([])));
            source != "" ==>
              (listed.Err? ==> r == Err(listed.error))
              && (listed.Ok? && listed.value == {} ==> r == Ok((true, Unavailable)))
              && (listed.Ok? && listed.value != {} ==>
                    r == if Text.Lower(username) in listed.value then Ok((true, Authorized)) else Ok((false, Refused)))
  {
    var source := if accessPath.Some? && accessPath.value != "" then accessPath.value else configuredPath;
    if source == "" then Ok((true, Unavailable))
    else
      var data := LoadRemoteJson(source, payload);
      var allowed := LoweredStrings(Get(data, "allowed_users", List([])));
      if allowed.Err? then Err(allowed.error)
      else if allowed.value == {} then Ok((true, Unavailable))
      else if Text.Lower(username) in allowed.value then Ok((true, Authorized))
      else Ok((false, Refused))
  }

  /**
   * Access is refused exactly when a non-empty list was loaded and the name,
   * lower-cased, is not on it; names that differ only in case get the same
   * answer; and an unreadable or non-object document allows the session.
   */
  lemma AccessLaws(username: string, other: string, accessPath: Option<string>, configuredPath: string,
                   payload: Option<Value>)
    ensures var source := if accessPath.Some? && accessPath.value != "" then accessPath.value else configuredPath;
            var listed := LoweredStrings(Get(LoadRemoteJson(source, payload), "allowed_users", List([])));
            var r := CheckAccessAllowed(username, accessPath, configuredPath, payload);
            (r.Ok? && !r.value.0 <==> source != "" && listed.Ok? && listed.value != {} && Text.Lower(username) !in listed.value)
    ensures Text.Lower(username) == Text.Lower(other) ==>
              CheckAccessAllowed(username, accessPath, configuredPath, payload)
              == CheckAccessAllowed(other, accessPath, configuredPath, payload)
    ensures payload.None? || !payload.value.Object? ==>
              CheckAccessAllowed(username, accessPath, configuredPath, payload) == Ok((true, Unavailable))
  {
  }

  /** A name on the list is let in whatever the case of either spelling. */
  lemma ListedAnyCase(username: string, items: seq<Value>, k: nat, source: string)
    requires source != "" && k < |items| && items[k] == Str(Text.Lower(username))
    ensures CheckAccessAllowed(username, Some(source), "", Some(Object(map["allowed_users" := List(items)])))
            == Ok((true, Authorized))
  {
    var listed := LoweredStrings(List(items));
    Text.LowerIdempotent(username);
    assert Text.Lower(items[k].s) in listed.value;
  }
}
