/**
 * The user list of user_check.py: a JSON document with a "users" list of
 * records and an "admins" list of names. Loading the document from GitHub
 * and saving it back are outside the model: the loaded document (None when
 * nothing could be fetched) and the clock are passed in, and saving returns
 * the document that would be written.
 */
module UserCheck {
  import opened Wrappers
  import opened Json
  import Sorting

  const LoadError := "Unable to fetch user list from GitHub"

  /**
   * `_load_data`: nothing fetched or an empty document is a RuntimeError;
   * otherwise the document with "users" and "admins" defaulting to empty
   * lists.
   */
  function LoadData(data: Option<map<string, Value>>): (r: Result<map<string, Value>>)
    ensures r.Err? <==> data.None? || data.value == map[]
    ensures r.Err? ==> r.error == RuntimeError(LoadError)
    ensures r.Ok? ==> r.value.Keys == data.value.Keys + {"users", "admins"}
                      && (forall k :: k in data.value ==> r.value[k] == data.value[k])
                      && ("users" !in data.value ==> r.value["users"] == List([]))
                      && ("admins" !in data.value ==> r.value["admins"] == List([]))
  {
    if data.None? || data.value == map[] then Err(RuntimeError(LoadError))
    else
      var d := data.value;
      var withUsers := if "users" in d then d else d["users" := List([])];
      Ok(if "admins" in withUsers then withUsers else withUsers["admins" := List([])])
  }

  datatype UserRecord = UserRecord(username: string, name: string, email: string, active: bool, added: real)

  /** The cleaned record built from one dict of the list. */
  function ToRecord(u: map<string, Value>): (r: Result<UserRecord>)
    ensures r.Ok? <==> FloatOf(Get(u, "added", Int(0))).Ok?
  {
    var added := FloatOf(Get(u, "added", Int(0)));
    if added.Err? then Err(added.error)
    else
      Ok(UserRecord(StrOf(Get(u, "username", Str(""))), StrOf(Get(u, "name", Str(""))),
                    StrOf(Get(u, "email", Str(""))), Truthy(Get(u, "active", Bool(true))), added.value))
  }

  /**
   * Missing text fields are empty, a missing "active" is true, a missing
   * "added" is 0, string names and float dates are kept, and an "added" that
   * `float()` rejects raises its error.
   */
  lemma ToRecordDefaults(u: map<string, Value>)
    ensures ToRecord(u).Err? ==> ToRecord(u).error == FloatOf(Get(u, "added", Int(0))).error
    ensures var r := ToRecord(u);
            r.Ok? ==>
              ("username" !in u ==> r.value.username == "")
              && ("username" in u && u["username"].Str? ==> r.value.username == u["username"].s)
              && ("name" !in u ==> r.value.name == "")
              && ("email" !in u ==> r.value.email == "")
              && ("active" !in u ==> r.value.active)
              && ("active" in u ==> (r.value.active <==> Truthy(u["active"])))
              && ("added" !in u ==> r.value.added == 0.0)
              && ("added" in u && u["added"].Float? ==> r.value.added == u["added"].r)
  {
  }

  /** One list entry: no record for a non-dict, else the record of the dict or its error. */
  function Clean(v: Value): (r: Result<Option<UserRecord>>)
    ensures !v.Object? ==> r == Ok(None)
    ensures v.Object? ==> (r.Ok? <==> ToRecord(v.fields).Ok?)
    ensures v.Object? && r.Ok? ==> r.value == Some(ToRecord(v.fields).value)
  {
    if !v.Object? then Ok(None)
    else
      var t := ToRecord(v.fields);
      if t.Err? then Err(t.error) else Ok(Some(t.value))
  }

  /** The loop of `load_user_records` over the cleaned entries: the first error raises. */
  function Collect(cs: seq<Result<Option<UserRecord>>>): (r: Result<seq<UserRecord>>)
    ensures r.Ok? ==> |r.value| <= |cs|
  {
    if cs == [] then Ok([])
    else
      var n := |cs| - 1;
      var p := Collect(cs[..n]);
      if p.Err? then p
      else if cs[n].Err? then Err(cs[n].error)
      else if cs[n].value.None? then p
      else Ok(p.value + [cs[n].value.value])
  }

  /**
   * The records are collected exactly when no entry fails, and then they are
   * the records the entries yield.
   */
  lemma {:induction false} CollectLaws(cs: seq<Result<Option<UserRecord>>>)
    ensures Collect(cs).Ok? <==> forall k :: 0 <= k < |cs| ==> cs[k].Ok?
    ensures Collect(cs).Ok? ==> forall x :: x in Collect(cs).value <==> exists k :: 0 <= k < |cs| && cs[k] == Ok(Some(x))
  {
    if cs != [] {
      var n := |cs| - 1;
      var p := cs[..n];
      CollectLaws(p);
      assert forall k :: 0 <= k < n ==> p[k] == cs[k];
    }
  }

  /** Records come out in list order: collecting a concatenation concatenates the records. */
  lemma {:induction false} CollectAppend(a: seq<Result<Option<UserRecord>>>, b: seq<Result<Option<UserRecord>>>)
    requires Collect(a).Ok? && Collect(b).Ok?
    ensures Collect(a + b) == Ok(Collect(a).value + Collect(b).value)
    decreases |b|
  {
    if b == [] {
      assert a + b == a;
      assert Collect(b) == Ok([]);
      assert Collect(a).value + [] == Collect(a).value;
    } else {
      var n := |b| - 1;
      assert (a + b)[..|a| + n] == a + b[..n];
      assert (a + b)[|a| + n] == b[n];
      RecordsPrefixOk(b, n);
      CollectAppend(a, b[..n]);
      var p := Collect(b[..n]).value;
      assert Collect(a + b[..n]) == Ok(Collect(a).value + p);
      assert b[n].Ok?;
      if b[n].value.Some? {
        assert Collect(b).value == p + [b[n].value.value];
        assert Collect(a + b).value == (Collect(a).value + p) + [b[n].value.value];
        assert (Collect(a).value + p) + [b[n].value.value] == Collect(a).value + (p + [b[n].value.value]);
      } else {
        assert Collect(b).value == p;
      }
    }
  }

  /** A prefix of entries that collect without error also collects without error. */
  lemma RecordsPrefixOk(b: seq<Result<Option<UserRecord>>>, n: nat)
    requires n == |b| - 1 && Collect(b).Ok?
    ensures Collect(b[..n]).Ok?
  {
  }

  /** `load_user_records` on a list: every entry cleaned, then collected. */
  function Records(items: seq<Value>): (r: Result<seq<UserRecord>>)
    ensures r.Ok? ==> |r.value| <= |items|
  {
    Collect(seq(|items|, k requires 0 <= k < |items| => Clean(items[k])))
  }

  /**
   * The records of a list are loaded exactly when every dict on it builds
   * its record, and then they are the records of its dicts: non-dicts are
   * skipped.
   */
  lemma RecordsLaws(items: seq<Value>)
    ensures Records(items).Ok? <==> forall k :: 0 <= k < |items| && items[k].Object? ==> ToRecord(items[k].fields).Ok?
    ensures Records(items).Ok? ==> forall x :: x in Records(items).value <==>
              exists k :: 0 <= k < |items| && items[k].Object? && ToRecord(items[k].fields) == Ok(x)
  {
    var cs := seq(|items|, k requires 0 <= k < |items| => Clean(items[k]));
    CollectLaws(cs);
    assert forall k :: 0 <= k < |items| ==> cs[k] == Clean(items[k]);
    if Records(items).Ok? {
      forall x ensures x in Records(items).value <==>
                       exists k :: 0 <= k < |items| && items[k].Object? && ToRecord(items[k].fields) == Ok(x)
      {
        if x in Records(items).value {
          var k :| 0 <= k < |cs| && cs[k] == Ok(Some(x));
          assert items[k].Object? && ToRecord(items[k].fields) == Ok(x);
        }
        if exists k :: 0 <= k < |items| && items[k].Object? && ToRecord(items[k].fields) == Ok(x) {
          var k :| 0 <= k < |items| && items[k].Object? && ToRecord(items[k].fields) == Ok(x);
          assert cs[k] == Ok(Some(x));
        }
      }
    }
  }

  /**
   * `load_user_records`: a failed load raises, a "users" value that is not a
   * list gives no records, and a list gives the records of its dicts.
   */
  function LoadUserRecords(data: Option<map<string, Value>>): (r: Result<seq<UserRecord>>)
    ensures data.None? || data.value == map[] ==> r == Err(RuntimeError(LoadError))
    ensures data.Some? && data.value != map[] && !Get(data.value, "users", List([])).List? ==> r == Ok([])
    ensures data.Some? && data.value != map[] && Get(data.value, "users", List([])).List? ==>
              r == Records(Get(data.value, "users", List([])).items)
  {
    var d := LoadData(data);
    if d.Err? then Err(d.error)
    else
      var users := Get(d.value, "users", List([]));
      if !users.List? then Ok([]) else Records(users.items)
  }

  /** The usernames of the active records, in order. */
  function ActiveNames(recs: seq<UserRecord>): (r: seq<string>)
    ensures forall n :: n in r <==> exists k :: 0 <= k < |recs| && recs[k].active && recs[k].username == n
  {
    if recs == [] then []
    else
      var n := |recs| - 1;
      assert forall k :: 0 <= k < n ==> recs[..n][k] == recs[k];
      ActiveNames(recs[..n]) + (if recs[n].active then [recs[n].username] else [])
  }

  /** `str(a) for a in admins` when "admins" is a list, nothing otherwise. */
  function AdminNames(admins: Value): (r: seq<string>)
    ensures !admins.List? ==> r == []
    ensures admins.List? ==> |r| == |admins.items| && forall k :: 0 <= k < |r| ==> r[k] == StrOf(admins.items[k])
  {
    if admins.List? then seq(|admins.items|, k requires 0 <= k < |admins.items| => StrOf(admins.items[k])) else []
  }

  /** `set(s)` as a list: the same members, each once. */
  function Dedup(s: seq<string>): (r: seq<string>)
    ensures forall x :: x in r <==> x in s
    ensures forall i, j :: 0 <= i < j < |r| ==> r[i] != r[j]
  {
    if s == [] then []
    else
      var p := Dedup(s[..|s| - 1]);
      assert forall x :: x in s <==> x in s[..|s| - 1] || x == s[|s| - 1] by {
        assert s == s[..|s| - 1] + [s[|s| - 1]];
      }
      if s[|s| - 1] in p then p else p + [s[|s| - 1]]
  }

  /** A list without repeated elements holds each element at most once. */
  lemma {:induction false} AtMostOnce<T>(s: seq<T>)
    requires forall i, j :: 0 <= i < j < |s| ==> s[i] != s[j]
    ensures forall x :: multiset(s)[x] <= 1
  {
    if s != [] {
      var p := s[..|s| - 1];
      assert s == p + [s[|s| - 1]];
      AtMostOnce(p);
      assert s[|s| - 1] !in p;
    }
  }

  /** An element found at two positions is counted twice. */
  lemma CountedTwice<T>(s: seq<T>, i: nat, j: nat)
    requires i < j < |s| && s[i] == s[j]
    ensures multiset(s)[s[i]] >= 2
  {
    assert s == s[..j] + s[j..];
    assert s[i] in s[..j] && s[j] in s[j..];
  }

  lemma StrLePreorder()
    ensures Sorting.TotalPreorder(Sorting.StrLe)
  {
    forall a: string, b: string ensures Sorting.StrLe(a, b) || Sorting.StrLe(b, a) {
      Sorting.StrLeTotal(a, b);
    }
    forall a: string, b: string, c: string | Sorting.StrLe(a, b) && Sorting.StrLe(b, c)
      ensures Sorting.StrLe(a, c)
    {
      Sorting.StrLeTrans(a, b, c);
    }
  }

  /**
   * `sorted(set(names))` over the active usernames and the admins: sorted in
   * string order with no name twice, and holding a name exactly when an
   * active record carries it or it is one of the admins.
   */
  function Allowed(recs: seq<UserRecord>, admins: seq<string>): (r: seq<string>)
    ensures forall i, j :: 0 <= i < j < |r| ==> Sorting.StrLe(r[i], r[j]) && r[i] != r[j]
    ensures forall n :: n in r <==> (exists k :: 0 <= k < |recs| && recs[k].active && recs[k].username == n) || n in admins
  {
    var allowed := Dedup(ActiveNames(recs) + admins);
    SortedSet(allowed);
    assert forall n :: n in allowed <==> n in ActiveNames(recs) || n in admins;
    Sorting.SortBy(allowed, Sorting.StrLe)
  }

  /** Sorting a list without repeats keeps its members and orders them strictly. */
  lemma SortedSet(s: seq<string>)
    requires forall i, j :: 0 <= i < j < |s| ==> s[i] != s[j]
    ensures var out := Sorting.SortBy(s, Sorting.StrLe);
            (forall i, j :: 0 <= i < j < |out| ==> Sorting.StrLe(out[i], out[j]) && out[i] != out[j])
            && forall n :: n in out <==> n in s
  {
    var out := Sorting.SortBy(s, Sorting.StrLe);
    StrLePreorder();
    Sorting.SortBySorted(s, Sorting.StrLe);
    AtMostOnce(s);
    forall i, j | 0 <= i < j < |out| ensures out[i] != out[j] {
      if out[i] == out[j] {
        CountedTwice(out, i, j);
      }
    }
    forall n ensures n in out <==> n in s {
      assert n in out <==> n in multiset(out);
      assert n in s <==> n in multiset(s);
    }
  }

  /**
   * `load_users`: a failed load raises; otherwise the names allowed by the
   * loaded records and the admins.
   */
  function LoadUsers(data: Option<map<string, Value>>): (r: Result<seq<string>>)
    ensures data.None? || data.value == map[] ==> r == Err(RuntimeError(LoadError))
    ensures r.Err? <==> LoadUserRecords(data).Err?
    ensures r.Ok? ==> r.value == Allowed(LoadUserRecords(data).value, AdminNames(Get(data.value, "admins", List([]))))
  {
    var d := LoadData(data);
    var recs := LoadUserRecords(data);
    if d.Err? || recs.Err? then Err(recs.error)
    else Ok(Allowed(recs.value, AdminNames(Get(d.value, "admins", List([])))))
  }

  /** `is_admin`: the name is one of the entries of an "admins" list. */
  function IsAdmin(data: Option<map<string, Value>>, username: string): (r: Result<bool>)
    ensures data.None? || data.value == map[] <==> r.Err?
    ensures r.Ok? ==> (r.value <==> "admins" in data.value && data.value["admins"].List?
                                    && exists k :: 0 <= k < |data.value["admins"].items| && data.value["admins"].items[k] == Str(username))
  {
    var d := LoadData(data);
    if d.Err? then Err(d.error)
    else
      var admins := Get(d.value, "admins", List([]));
      Ok(admins.List? && Str(username) in admins.items)
  }

  /** The document of the module's test: one active user, one inactive user and one admin. */
  function SampleData(): map<string, Value> {
    map["users" := List([Object(map["username" := Str("a"), "active" := Bool(true)]),
                         Object(map["username" := Str("b"), "active" := Bool(false)])]),
        "admins" := List([Str("c")])]
  }

  /** A dict with only a username and an active flag gets empty texts and date 0. */
  lemma ShortRecord(name: string, active: bool)
    ensures ToRecord(map["username" := Str(name), "active" := Bool(active)]) == Ok(UserRecord(name, "", "", active, 0.0))
  {
    var u := map["username" := Str(name), "active" := Bool(active)];
    assert "added" !in u && "name" !in u && "email" !in u;
    assert Get(u, "added", Int(0)) == Int(0);
  }

  lemma CollectOne(x: UserRecord)
    ensures Collect([Ok(Some(x))]) == Ok([x])
  {
    var cs: seq<Result<Option<UserRecord>>> := [Ok(Some(x))];
    assert cs[..0] == [];
    assert Collect(cs[..0]) == Ok([]);
    assert [] + [x] == [x];
  }

  /** The two records of that document: "a" active and "b" inactive, both dated 0. */
  lemma SampleRecords()
    ensures LoadUserRecords(Some(SampleData())) == Ok([UserRecord("a", "", "", true, 0.0), UserRecord("b", "", "", false, 0.0)])
  {
    var items := SampleData()["users"].items;
    var ua := UserRecord("a", "", "", true, 0.0);
    var ub := UserRecord("b", "", "", false, 0.0);
    ShortRecord("a", true);
    ShortRecord("b", false);
    var cs := seq(|items|, k requires 0 <= k < |items| => Clean(items[k]));
    assert cs == [Ok(Some(ua)), Ok(Some(ub))];
    CollectOne(ua);
    CollectOne(ub);
    assert cs == [Ok(Some(ua))] + [Ok(Some(ub))];
    CollectAppend([Ok(Some(ua))], [Ok(Some(ub))]);
    assert Collect([Ok(Some(ua))] + [Ok(Some(ub))]) == Ok([ua] + [ub]);
    assert [ua] + [ub] == [ua, ub];
    assert Records(items) == Collect(cs);
    assert "users" in SampleData() && Get(SampleData(), "users", List([])) == List(items);
    assert LoadUserRecords(Some(SampleData())) == Records(items);
    assert Collect(cs) == Ok([ua, ub]);
  }

  /** That document's names with access are drawn from its records and its one admin. */
  lemma SampleLoad()
    ensures LoadUsers(Some(SampleData()))
            == Ok(Allowed([UserRecord("a", "", "", true, 0.0), UserRecord("b", "", "", false, 0.0)], ["c"]))
  {
    SampleRecords();
    var admins := SampleData()["admins"];
    assert Get(SampleData(), "admins", List([])) == admins && admins.items[0] == Str("c");
    assert AdminNames(admins) == ["c"];
  }

  lemma SampleAdmin()
    ensures IsAdmin(Some(SampleData()), "c") == Ok(true)
  {
    var admins := SampleData()["admins"];
    assert admins.items[0] == Str("c");
  }

  /** With that document, the names with access are "a" and "c", and "c" is an admin. */
  lemma SampleListing()
    ensures LoadUsers(Some(SampleData())).Ok?
    ensures forall n :: n in LoadUsers(Some(SampleData())).value <==> n == "a" || n == "c"
    ensures IsAdmin(Some(SampleData()), "c") == Ok(true)
  {
    SampleLoad();
    SampleAdmin();
    SampleAllowed();
  }

  lemma SampleAllowed()
    ensures forall n :: n in Allowed([UserRecord("a", "", "", true, 0.0), UserRecord("b", "", "", false, 0.0)], ["c"])
                        <==> n == "a" || n == "c"
  {
    var recs := [UserRecord("a", "", "", true, 0.0), UserRecord("b", "", "", false, 0.0)];
    var r := Allowed(recs, ["c"]);
    forall n ensures n in r <==> n == "a" || n == "c" {
      if n == "a" {
        assert recs[0].active && recs[0].username == n;
      }
    }
  }

  /** The record `save_users` creates for a name it has not seen. */
  function NewRecord(name: string, now: real): UserRecord {
    UserRecord(name, "", "", true, now)
  }

  /** One record per username. */
  predicate Distinct(t: seq<UserRecord>) {
    forall i, j :: 0 <= i < j < |t| ==> t[i].username != t[j].username
  }

  function Names(t: seq<UserRecord>): set<string> {
    set k | 0 <= k < |t| :: t[k].username
  }

  /** The names of a table are those before its last record and the last record's. */
  lemma NamesSnoc(t: seq<UserRecord>)
    requires t != []
    ensures Names(t) == Names(t[..|t| - 1]) + {t[|t| - 1].username}
  {
    var p := t[..|t| - 1];
    forall m | m in Names(t) ensures m in Names(p) + {t[|t| - 1].username} {
      var j :| 0 <= j < |t| && t[j].username == m;
      if j < |p| {
        assert p[j].username == m;
      }
    }
    forall m | m in Names(p) ensures m in Names(t) {
      var j :| 0 <= j < |p| && p[j].username == m;
      assert t[j].username == m;
    }
  }

  /** Where `name` sits in the table, or its length when absent. */
  function Position(t: seq<UserRecord>, name: string): (k: nat)
    ensures k <= |t|
    ensures k < |t| ==> t[k].username == name
    ensures forall j :: 0 <= j < k ==> t[j].username != name
  {
    if t == [] then 0 else if t[0].username == name then 0 else 1 + Position(t[1..], name)
  }

  /**
   * `usernames[rec["username"]] = rec` on the insertion-ordered dict: a
   * later record with a known name replaces the earlier one in its place.
   */
  function Upsert(t: seq<UserRecord>, rec: UserRecord): (r: seq<UserRecord>)
    requires Distinct(t)
    ensures Distinct(r)
    ensures Names(r) == Names(t) + {rec.username}
    ensures rec in r
    ensures forall x :: x in r ==> x == rec || x in t
    ensures forall x :: x in t && x.username != rec.username ==> x in r
  {
    var k := Position(t, rec.username);
    if k < |t| then
      var r := t[k := rec];
      assert forall x :: x in t && x.username != rec.username ==> x in r by {
        forall x | x in t && x.username != rec.username ensures x in r {
          var j :| 0 <= j < |t| && t[j] == x;
          assert r[j] == x;
        }
      }
      assert Names(r) == Names(t) + {rec.username} by {
        forall n | n in Names(t) ensures n in Names(r) {
          var j :| 0 <= j < |t| && t[j].username == n;
          assert r[j].username == n;
        }
        assert r[k].username == rec.username;
      }
      r
    else
      var r := t + [rec];
      assert r[|t|] == rec;
      assert rec.username !in Names(t);
      assert Names(r) == Names(t) + {rec.username} by {
        forall n | n in Names(t) ensures n in Names(r) {
          var j :| 0 <= j < |t| && t[j].username == n;
          assert r[j].username == n;
        }
        assert r[|t|].username == rec.username;
      }
      r
  }

  /**
   * `{u["username"]: u for u in records}` in insertion order: one record per
   * name, holding exactly the names of the records, each taken from the
   * records.
   */
  function Keyed(records: seq<UserRecord>): (r: seq<UserRecord>)
    ensures Distinct(r)
    ensures Names(r) == Names(records)
    ensures forall x :: x in r ==> x in records
  {
    if records == [] then []
    else
      var n := |records| - 1;
      var p := records[..n];
      assert forall k :: 0 <= k < n ==> p[k] == records[k];
      var q := Keyed(p);
      var r := Upsert(q, records[n]);
      NamesSnoc(records);
      assert forall x :: x in r ==> x in records by {
        forall x | x in r ensures x in records {
          if x != records[n] {
            assert x in q;
            assert x in p;
          }
        }
      }
      r
  }

  /**
   * One pass of the first loop of `save_users`: a known name is set active,
   * an unknown one is appended as a new active record.
   */
  function Activate(t: seq<UserRecord>, name: string, now: real): (r: seq<UserRecord>)
    requires Distinct(t)
    ensures Distinct(r)
    ensures Names(r) == Names(t) + {name}
    ensures forall x :: x in r && x.username == name ==> x.active
    ensures forall x :: x in r && x.username == name && name in Names(t) ==> exists y :: y in t && x == y.(active := true)
    ensures forall x :: x in r && x.username == name && name !in Names(t) ==> x == NewRecord(name, now)
    ensures forall x :: x in r && x.username != name ==> x in t
    ensures forall x :: x in t && x.username != name ==> x in r
  {
    var k := Position(t, name);
    if k < |t| then
      var y := t[k].(active := true);
      assert y.username == name;
      Upsert(t, y)
    else
      assert name !in Names(t);
      Upsert(t, NewRecord(name, now))
  }

  /** The first loop of `save_users` over the requested names. */
  function ActivateAll(t: seq<UserRecord>, users: seq<string>, now: real): (r: seq<UserRecord>)
    requires Distinct(t)
    ensures Distinct(r)
  {
    if users == [] then t
    else Activate(ActivateAll(t, users[..|users| - 1], now), users[|users| - 1], now)
  }

  /** After the loop the table holds the names it held and the requested ones. */
  lemma {:induction false} ActivateAllNames(t: seq<UserRecord>, users: seq<string>, now: real)
    requires Distinct(t)
    ensures forall m :: m in Names(ActivateAll(t, users, now)) <==> m in Names(t) || m in users
  {
    if users != [] {
      var n := |users| - 1;
      var p := users[..n];
      ActivateAllNames(t, p, now);
      assert users == p + [users[n]];
    }
  }

  /**
   * After the loop every requested name is active, and the records of names
   * not requested are the table's own, all of them kept.
   */
  lemma {:induction false} ActivateAllFlags(t: seq<UserRecord>, users: seq<string>, now: real)
    requires Distinct(t)
    ensures var r := ActivateAll(t, users, now);
            (forall x :: x in r && x.username in users ==> x.active)
            && (forall x :: x in r && x.username !in users ==> x in t)
            && (forall x :: x in t && x.username !in users ==> x in r)
  {
    if users != [] {
      var n := |users| - 1;
      var p := users[..n];
      ActivateAllFlags(t, p, now);
      assert users == p + [users[n]];
      var q := ActivateAll(t, p, now);
      var r := Activate(q, users[n], now);
      forall x | x in r && x.username in users ensures x.active {
        if x.username != users[n] {
          assert x in q && x.username in p;
        }
      }
      forall x | x in r && x.username !in users ensures x in t {
        assert x in q;
      }
      forall x | x in t && x.username !in users ensures x in r {
        assert x in q;
      }
    }
  }

  /**
   * After the loop a record whose name the table knew keeps everything but
   * its flag from the table, and a record of a new name is a new record.
   */
  lemma {:induction false} ActivateAllFields(t: seq<UserRecord>, users: seq<string>, now: real)
    requires Distinct(t)
    ensures var r := ActivateAll(t, users, now);
            (forall x :: x in r && x.username in Names(t) ==> exists y :: y in t && x.(active := y.active) == y)
            && (forall x :: x in r && x.username !in Names(t) ==> x == NewRecord(x.username, now))
  {
    if users != [] {
      var n := |users| - 1;
      var p := users[..n];
      ActivateAllFields(t, p, now);
      var q := ActivateAll(t, p, now);
      var r := Activate(q, users[n], now);
      forall x | x in r && x.username in Names(t) ensures exists y :: y in t && x.(active := y.active) == y {
        if x.username == users[n] {
          if users[n] in Names(q) {
            var z :| z in q && x == z.(active := true);
            var y :| y in t && z.(active := y.active) == y;
            assert x.(active := y.active) == y;
          } else {
            ActivateAllNames(t, p, now);
          }
        } else {
          assert x in q;
        }
      }
      forall x | x in r && x.username !in Names(t) ensures x == NewRecord(x.username, now) {
        if x.username == users[n] && users[n] in Names(q) {
          var z :| z in q && x == z.(active := true);
        } else if x.username != users[n] {
          assert x in q;
        }
      }
    }
  }

  /** The second loop of `save_users`: every record whose name was not requested is set inactive. */
  function Mark(t: seq<UserRecord>, users: seq<string>): (r: seq<UserRecord>)
    ensures |r| == |t|
    ensures forall k :: 0 <= k < |t| ==> r[k] == if t[k].username in users then t[k] else t[k].(active := false)
  {
    seq(|t|, k requires 0 <= k < |t| => if t[k].username in users then t[k] else t[k].(active := false))
  }

  /** The sort key `r.get("added", 0)`. */
  predicate AddedLe(a: UserRecord, b: UserRecord) {
    a.added <= b.added
  }

  /** The document `save_users` writes. */
  datatype Saved = Saved(users: seq<UserRecord>, admins: Value)

  /** `save_users`, stated on values. */
  function SaveSpec(data: Option<map<string, Value>>, users: seq<string>, now: real): Result<Saved> {
    var d := LoadData(data);
    var recs := LoadUserRecords(data);
    if d.Err? || recs.Err? then Err(recs.error)
    else
      Ok(Saved(Sorting.SortBy(Table(recs.value, users, now), AddedLe), d.value["admins"]))
  }

  /** The table both loops of `save_users` leave, before sorting. */
  function Table(recs: seq<UserRecord>, users: seq<string>, now: real): seq<UserRecord> {
    Mark(ActivateAll(Keyed(recs), users, now), users)
  }

  /**
   * What the saved records must be: one record per name; exactly the names
   * of the loaded records and the requested ones, so no name is lost; a
   * record active exactly when its name was requested; a name seen before
   * keeping its name, e-mail and date; and a new name getting an empty
   * record dated `now`.
   */
  ghost predicate Merged(recs: seq<UserRecord>, users: seq<string>, now: real, out: seq<UserRecord>) {
    Distinct(out)
    && (forall m :: m in Names(out) <==> m in Names(recs) || m in users)
    && (forall x :: x in out ==> (x.active <==> x.username in users))
    && (forall x :: x in out && x.username !in Names(recs) ==> x == NewRecord(x.username, now))
    && (forall x :: x in out && x.username in Names(recs) ==> exists y :: y in recs && x.(active := y.active) == y)
  }

  /** The position of `name` in the table, by linear search. */
  method Locate(t: seq<UserRecord>, name: string) returns (k: nat)
    ensures k == Position(t, name)
  {
    k := 0;
    while k < |t| && t[k].username != name
      invariant k <= |t|
      invariant forall j :: 0 <= j < k ==> t[j].username != name
    {
      k := k + 1;
    }
  }

  /** `usernames[rec["username"]] = rec` on the table. */
  method PutRecord(t: seq<UserRecord>, rec: UserRecord) returns (r: seq<UserRecord>)
    requires Distinct(t)
    ensures r == Upsert(t, rec)
  {
    var k := Locate(t, rec.username);
    if k < |t| {
      r := t[k := rec];
    } else {
      r := t + [rec];
    }
  }

  /** One pass of the first loop of `save_users` on the table. */
  method ActivateName(t: seq<UserRecord>, name: string, now: real) returns (r: seq<UserRecord>)
    requires Distinct(t)
    ensures r == Activate(t, name, now)
  {
    var k := Locate(t, name);
    if k < |t| {
      r := t[k := t[k].(active := true)];
      assert Position(t, t[k].(active := true).username) == k;
    } else {
      r := t + [NewRecord(name, now)];
    }
  }

  /**
   * `save_users`: loads the records, keys them by name, activates the
   * requested names, deactivates the others, and returns the saved document.
   */
  method SaveUsers(data: Option<map<string, Value>>, users: seq<string>, now: real) returns (r: Result<Saved>)
    ensures r == SaveSpec(data, users, now)
  {
    var existing := LoadData(data);
    var loaded := LoadUserRecords(data);
    if existing.Err? || loaded.Err? {
      return Err(loaded.error);
    }
    var table := KeyRecords(loaded.value);
    table := ActivateNames(table, users, now);
    table := MarkUnlisted(table, users);
    r := Ok(Saved(Sorting.SortBy(table, AddedLe), existing.value["admins"]));
  }

  /** The dict comprehension keying the loaded records by name. */
  method KeyRecords(records: seq<UserRecord>) returns (table: seq<UserRecord>)
    ensures table == Keyed(records)
  {
    table := [];
    for i := 0 to |records|
      invariant table == Keyed(records[..i])
    {
      assert records[..i + 1][..i] == records[..i];
      table := PutRecord(table, records[i]);
    }
    assert records[..|records|] == records;
  }

  /** The first loop of `save_users`. */
  method ActivateNames(keyed: seq<UserRecord>, users: seq<string>, now: real) returns (table: seq<UserRecord>)
    requires Distinct(keyed)
    ensures table == ActivateAll(keyed, users, now)
  {
    table := keyed;
    for i := 0 to |users|
      invariant table == ActivateAll(keyed, users[..i], now)
    {
      assert users[..i + 1][..i] == users[..i];
      table := ActivateName(table, users[i], now);
    }
    assert users[..|users|] == users;
  }

  /** The second loop of `save_users`. */
  method MarkUnlisted(activated: seq<UserRecord>, users: seq<string>) returns (table: seq<UserRecord>)
    ensures table == Mark(activated, users)
  {
    table := activated;
    for i := 0 to |table|
      invariant |table| == |activated|
      invariant forall j :: 0 <= j < i ==> table[j] == Mark(activated, users)[j]
      invariant forall j :: i <= j < |table| ==> table[j] == activated[j]
    {
      if table[i].username !in users {
        table := table[i := table[i].(active := false)];
      }
    }
  }

  /** Permuting a table keeps one record per name. */
  lemma PermutedDistinct(a: seq<UserRecord>, b: seq<UserRecord>)
    requires multiset(a) == multiset(b) && Distinct(a)
    ensures Distinct(b)
  {
    AtMostOnce(a);
    forall i, j | 0 <= i < j < |b| ensures b[i].username != b[j].username {
      if b[i] == b[j] {
        CountedTwice(b, i, j);
      } else {
        assert b[i] in multiset(a) && b[j] in multiset(a);
        var p :| 0 <= p < |a| && a[p] == b[i];
        var q :| 0 <= q < |a| && a[q] == b[j];
      }
    }
  }

  /** Marking changes flags only: the names, one record per name, stay. */
  lemma MarkNames(t: seq<UserRecord>, users: seq<string>)
    requires Distinct(t)
    ensures Distinct(Mark(t, users))
    ensures forall m :: m in Names(Mark(t, users)) <==> m in Names(t)
  {
    var r := Mark(t, users);
    forall i, j | 0 <= i < j < |r| ensures r[i].username != r[j].username {
      assert r[i].username == t[i].username && r[j].username == t[j].username;
    }
    forall m ensures m in Names(r) <==> m in Names(t) {
      if m in Names(t) {
        var k :| 0 <= k < |t| && t[k].username == m;
        assert r[k].username == m;
      }
      if m in Names(r) {
        var k :| 0 <= k < |r| && r[k].username == m;
        assert t[k].username == m;
      }
    }
  }

  /** The table the loops leave meets the merge rules. */
  lemma TableMerged(recs: seq<UserRecord>, users: seq<string>, now: real)
    ensures Merged(recs, users, now, Table(recs, users, now))
  {
    var keyed := Keyed(recs);
    var act := ActivateAll(keyed, users, now);
    ActivateAllNames(keyed, users, now);
    MarkNames(act, users);
    TableRecords(recs, users, now);
  }

  /** Each record of that table has the flag and the fields the merge rules ask for. */
  lemma TableRecords(recs: seq<UserRecord>, users: seq<string>, now: real)
    ensures var table := Table(recs, users, now);
            forall x :: x in table ==>
              (x.active <==> x.username in users)
              && (x.username !in Names(recs) ==> x == NewRecord(x.username, now))
              && (x.username in Names(recs) ==> exists y :: y in recs && x.(active := y.active) == y)
  {
    var keyed := Keyed(recs);
    var act := ActivateAll(keyed, users, now);
    var table := Mark(act, users);
    ActivateAllFlags(keyed, users, now);
    ActivateAllFields(keyed, users, now);
    forall x | x in table
      ensures x.active <==> x.username in users
      ensures x.username !in Names(recs) ==> x == NewRecord(x.username, now)
      ensures x.username in Names(recs) ==> exists y :: y in recs && x.(active := y.active) == y
    {
      var k :| 0 <= k < |table| && table[k] == x;
      var z := act[k];
      assert z in act;
      if x.username in Names(recs) {
        var y :| y in keyed && z.(active := y.active) == y;
        assert x.(active := y.active) == y;
      }
    }
  }

  /** The merge rules do not depend on the order of the records. */
  lemma PermutedMerged(recs: seq<UserRecord>, users: seq<string>, now: real, a: seq<UserRecord>, b: seq<UserRecord>)
    requires multiset(a) == multiset(b) && Merged(recs, users, now, a)
    ensures Merged(recs, users, now, b)
  {
    PermutedDistinct(a, b);
    assert forall x :: x in b <==> x in a by {
      forall x ensures x in b <==> x in a {
        assert x in b <==> x in multiset(b);
        assert x in a <==> x in multiset(a);
      }
    }
    forall m ensures m in Names(b) <==> m in Names(a) {
      if m in Names(b) {
        var k :| 0 <= k < |b| && b[k].username == m;
        assert b[k] in a;
      }
      if m in Names(a) {
        var k :| 0 <= k < |a| && a[k].username == m;
        assert a[k] in b;
      }
    }
  }

  /**
   * What `save_users` writes: the merged records ordered by date, and the
   * admins as loaded.
   */
  lemma SaveLaws(data: Option<map<string, Value>>, users: seq<string>, now: real)
    requires SaveSpec(data, users, now).Ok?
    ensures Merged(LoadUserRecords(data).value, users, now, SaveSpec(data, users, now).value.users)
    ensures Sorting.Sorted(SaveSpec(data, users, now).value.users, AddedLe)
    ensures SaveSpec(data, users, now).value.admins == Get(data.value, "admins", List([]))
  {
    var recs := LoadUserRecords(data).value;
    var table := Table(recs, users, now);
    TableMerged(recs, users, now);
    PermutedMerged(recs, users, now, table, Sorting.SortBy(table, AddedLe));
    AddedPreorder();
    Sorting.SortBySorted(table, AddedLe);
  }

  lemma AddedPreorder()
    ensures Sorting.TotalPreorder(AddedLe)
  {
  }
}
