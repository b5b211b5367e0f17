/** The three tables as sequences of rows in storage order, and the pure
    operations the handlers of server/app.py perform on them: lookups by key,
    the `missions` relationship, row construction through the validators, the
    attribute-by-attribute update of a scientist, and mission deletion. */
module Tables {
  import opened Wrappers
  import opened Values
  import opened Models

  /** The position of the first entry equal to `id`: the row that
      `X.query.filter(X.id == id).first()` returns. */
  function IndexOf(ids: seq<int>, id: int): (r: Option<nat>)
    ensures r.Some? ==> r.value < |ids| && ids[r.value] == id
    ensures r.Some? ==> forall j :: 0 <= j < r.value ==> ids[j] != id
    ensures r.None? <==> id !in ids
  {
    if ids == [] then None
    else if ids[0] == id then Some(0)
    else match IndexOf(ids[1..], id)
      case None => None
      case Some(k) => Some(k + 1)
  }

  /** No key occurs twice: what a primary key guarantees. */
  predicate Distinct(ids: seq<int>) {
    forall i, j :: 0 <= i < j < |ids| ==> ids[i] != ids[j]
  }

  /** The key column of a table, in table order. */
  function Keys<T>(rows: seq<T>, key: T -> int): (r: seq<int>)
    ensures |r| == |rows| && forall i :: 0 <= i < |rows| ==> r[i] == key(rows[i])
  {
    seq(|rows|, i requires 0 <= i < |rows| => key(rows[i]))
  }

  function PlanetIds(ps: seq<Planet>): seq<int> {
    Keys(ps, (p: Planet) => p.id)
  }

  function ScientistIds(ss: seq<Scientist>): seq<int> {
    Keys(ss, (s: Scientist) => s.id)
  }

  function MissionIds(ms: seq<Mission>): seq<int> {
    Keys(ms, (m: Mission) => m.id)
  }

  /** The set of mission keys occurring in `ms`. */
  function IdSet(ms: seq<Mission>): set<int> {
    set m | m in ms :: m.id
  }

  /** The position of the scientist with key `id`, or None: the 404 case. */
  function FindScientist(ss: seq<Scientist>, id: int): (r: Option<nat>)
    ensures r.Some? ==> r.value < |ss| && ss[r.value].id == id
    ensures r.None? <==> forall i :: 0 <= i < |ss| ==> ss[i].id != id
  {
    IndexOf(ScientistIds(ss), id)
  }

  /** The position of the planet with key `id`, or None. */
  function FindPlanet(ps: seq<Planet>, id: int): (r: Option<nat>)
    ensures r.Some? ==> r.value < |ps| && ps[r.value].id == id
    ensures r.None? <==> forall i :: 0 <= i < |ps| ==> ps[i].id != id
  {
    IndexOf(PlanetIds(ps), id)
  }

  /** `mission.scientist`: the scientist whose key the foreign key holds, or
      None when it holds a key no scientist has (a dangling reference). */
  function ScientistOf(ss: seq<Scientist>, fk: Value): (r: Option<Scientist>)
    ensures r.Some? ==> r.value in ss && fk == Num(r.value.id)
    ensures r.None? ==> forall i :: 0 <= i < |ss| ==> fk != Num(ss[i].id)
  {
    if !fk.Num? then None
    else match FindScientist(ss, fk.n)
      case None => None
      case Some(i) => Some(ss[i])
  }

  /** `mission.planet`: the planet whose key the foreign key holds, or None. */
  function PlanetOf(ps: seq<Planet>, fk: Value): (r: Option<Planet>)
    ensures r.Some? ==> r.value in ps && fk == Num(r.value.id)
    ensures r.None? ==> forall i :: 0 <= i < |ps| ==> fk != Num(ps[i].id)
  {
    if !fk.Num? then None
    else match FindPlanet(ps, fk.n)
      case None => None
      case Some(i) => Some(ps[i])
  }

  /** The mission belongs to the scientist with key `sid`. */
  predicate Owns(sid: int, m: Mission) {
    m.scientistId == Num(sid)
  }

  /** `scientist.missions`: the missions whose foreign key is `sid`, in table order. */
  function MissionsOf(ms: seq<Mission>, sid: int): (r: seq<Mission>)
    ensures forall m :: m in r <==> m in ms && Owns(sid, m)
    ensures |r| <= |ms|
  {
    if ms == [] then []
    else (if Owns(sid, ms[0]) then [ms[0]] else []) + MissionsOf(ms[1..], sid)
  }

  /** The missions that do not belong to `sid`, in table order. */
  function Unlinked(ms: seq<Mission>, sid: int): (r: seq<Mission>)
    ensures forall m :: m in r <==> m in ms && !Owns(sid, m)
    ensures |r| + |MissionsOf(ms, sid)| == |ms|
  {
    if ms == [] then []
    else (if Owns(sid, ms[0]) then [] else [ms[0]]) + Unlinked(ms[1..], sid)
  }

  /** The table once `session.delete` has removed the row with key `mid`. */
  function DeleteMission(ms: seq<Mission>, mid: int): (r: seq<Mission>)
    ensures forall m :: m in r <==> m in ms && m.id != mid
  {
    if ms == [] then []
    else (if ms[0].id == mid then [] else [ms[0]]) + DeleteMission(ms[1..], mid)
  }

  /** The table without every row whose key is in `gone`, in table order. */
  function WithoutIds(ms: seq<Mission>, gone: set<int>): (r: seq<Mission>)
    ensures forall m :: m in r <==> m in ms && m.id !in gone
  {
    if ms == [] then []
    else (if ms[0].id in gone then [] else [ms[0]]) + WithoutIds(ms[1..], gone)
  }

  /** Removing no key leaves the table as it is. */
  lemma {:induction false} WithoutNothing(ms: seq<Mission>)
    ensures WithoutIds(ms, {}) == ms
  {
    if ms != [] {
      WithoutNothing(ms[1..]);
    }
  }

  /** Deleting one more key extends the set of keys deleted. */
  lemma {:induction false} DeleteExtends(ms: seq<Mission>, gone: set<int>, mid: int)
    ensures DeleteMission(WithoutIds(ms, gone), mid) == WithoutIds(ms, gone + {mid})
  {
    if ms != [] {
      DeleteExtends(ms[1..], gone, mid);
      var rest := WithoutIds(ms[1..], gone);
      var head := if ms[0].id in gone then [] else [ms[0]];
      assert WithoutIds(ms, gone) == head + rest;
      if head == [] {
        assert DeleteMission(head + rest, mid) == DeleteMission(rest, mid) by {
          assert head + rest == rest;
        }
      } else {
        assert (head + rest)[1..] == rest;
      }
    }
  }

  /** The table once the rows with the keys of the first `k` entries of
      `batch` have been deleted one after the other. */
  function DeletedUpTo(ms: seq<Mission>, batch: seq<Mission>, k: nat): seq<Mission>
    requires k <= |batch|
  {
    WithoutIds(ms, IdSet(batch[..k]))
  }

  /** Deleting nothing leaves the table as it is. */
  lemma DeletedNone(ms: seq<Mission>, batch: seq<Mission>)
    ensures DeletedUpTo(ms, batch, 0) == ms
  {
    assert IdSet(batch[..0]) == {};
    WithoutNothing(ms);
  }

  /** One more `session.delete` extends the deleted prefix of the batch by one. */
  lemma DeletedNext(ms: seq<Mission>, batch: seq<Mission>, k: nat)
    requires k < |batch|
    ensures DeleteMission(DeletedUpTo(ms, batch, k), batch[k].id) == DeletedUpTo(ms, batch, k + 1)
  {
    assert batch[..k + 1] == batch[..k] + [batch[k]];
    assert IdSet(batch[..k + 1]) == IdSet(batch[..k]) + {batch[k].id};
    DeleteExtends(ms, IdSet(batch[..k]), batch[k].id);
  }

  /** Removing a key that no row has changes nothing. */
  lemma {:induction false} WithoutAbsentId(ms: seq<Mission>, gone: set<int>, x: int)
    requires x !in IdSet(ms)
    ensures WithoutIds(ms, gone + {x}) == WithoutIds(ms, gone)
  {
    if ms != [] {
      assert IdSet(ms[1..]) <= IdSet(ms) by {
        forall m | m in ms[1..] ensures m in ms { }
      }
      assert ms[0] in ms;
      WithoutAbsentId(ms[1..], gone, x);
    }
  }

  /** With distinct keys, removing the keys of the scientist's missions leaves
      exactly the missions that do not belong to it, in table order. */
  lemma {:induction false} CascadeRemovesOwned(ms: seq<Mission>, sid: int)
    requires Distinct(MissionIds(ms))
    ensures WithoutIds(ms, IdSet(MissionsOf(ms, sid))) == Unlinked(ms, sid)
  {
    if ms != [] {
      var m, rest := ms[0], ms[1..];
      assert Distinct(MissionIds(rest)) by {
        forall i, j | 0 <= i < j < |rest| ensures rest[i].id != rest[j].id {
          assert MissionIds(ms)[i + 1] != MissionIds(ms)[j + 1];
        }
      }
      assert m.id !in IdSet(rest) by {
        forall k | 0 <= k < |rest| ensures rest[k].id != m.id {
          assert MissionIds(ms)[0] != MissionIds(ms)[k + 1];
        }
      }
      CascadeRemovesOwned(rest, sid);
      var owned := IdSet(MissionsOf(rest, sid));
      assert owned <= IdSet(rest);
      if Owns(sid, m) {
        assert MissionsOf(ms, sid) == [m] + MissionsOf(rest, sid);
        assert IdSet(MissionsOf(ms, sid)) == owned + {m.id};
        WithoutAbsentId(rest, owned, m.id);
      } else {
        assert MissionsOf(ms, sid) == MissionsOf(rest, sid);
        assert WithoutIds(ms, owned) == [m] + WithoutIds(rest, owned);
      }
    }
  }

  /** A scientist row as the validators admit it. */
  predicate ValidScientist(s: Scientist) {
    NonEmptyStr(s.name) && NonEmptyStr(s.fieldOfStudy)
  }

  /** A mission row that the validators admitted and the database stored. */
  predicate ValidMission(m: Mission) {
    && NonEmptyStr(m.name)
    && m.scientistId != Null && Bindable(m.scientistId)
    && m.planetId != Null && Bindable(m.planetId)
  }

  /** `Scientist(name=data['name'], field_of_study=data['field_of_study'])`
      given key `id`: both arguments are looked up before construction, then
      assigned in order through the validators. */
  function NewScientist(id: int, data: map<string, Value>): (r: Result<Scientist, Exception>)
    ensures r.Ok? <==> && "name" in data && "field_of_study" in data
                       && NonEmptyStr(data["name"]) && NonEmptyStr(data["field_of_study"])
    ensures r.Ok? ==> r.value == Scientist(id, data["name"], data["field_of_study"])
    ensures r.Ok? ==> ValidScientist(r.value)
  {
    if "name" !in data then Err(KeyError("name"))
    else if "field_of_study" !in data then Err(KeyError("field_of_study"))
    else match Validate(ScientistName, data["name"])
      case Err(e) => Err(e)
      case Ok(name) =>
        match Validate(ScientistFieldOfStudy, data["field_of_study"])
        case Err(e) => Err(e)
        case Ok(field) => Ok(Scientist(id, name, field))
  }

  /** `Mission(name=data['name'], scientist_id=data['scientist_id'],
      planet_id=data['planet_id'])` given key `id`: the three arguments are
      looked up, then assigned in order through the validators. Whether the
      referenced rows exist plays no part. */
  function NewMission(id: int, data: map<string, Value>): (r: Result<Mission, Exception>)
    ensures r.Ok? <==> && "name" in data && "scientist_id" in data && "planet_id" in data
                       && Validate(MissionName, data["name"]).Ok?
                       && data["scientist_id"] != Null && data["planet_id"] != Null
    ensures r.Ok? ==> r.value == Mission(id, data["name"], data["scientist_id"], data["planet_id"])
  {
    if "name" !in data then Err(KeyError("name"))
    else if "scientist_id" !in data then Err(KeyError("scientist_id"))
    else if "planet_id" !in data then Err(KeyError("planet_id"))
    else match Validate(MissionName, data["name"])
      case Err(e) => Err(e)
      case Ok(name) =>
        match Validate(MissionScientistId, data["scientist_id"])
        case Err(e) => Err(e)
        case Ok(sid) =>
          match Validate(MissionPlanetId, data["planet_id"])
          case Err(e) => Err(e)
          case Ok(pid) => Ok(Mission(id, name, sid, pid))
  }

  /** The commit can bind every column of the new mission. A name the
      validator admitted survives the commit only as a non-empty string. */
  predicate Committable(m: Mission): (b: bool)
    ensures b && Validate(MissionName, m.name).Ok? ==> NonEmptyStr(m.name)
  {
    Bindable(m.name) && Bindable(m.scientistId) && Bindable(m.planetId)
  }

  /** A mission is stored exactly when the body has all three keys, the name is
      a non-empty string and each foreign key is neither null, an array or
      object, nor an integer outside the signed 64-bit range; the row then
      holds the supplied values. */
  lemma NewMissionStoredExactly(id: int, data: map<string, Value>)
    ensures (NewMission(id, data).Ok? && Committable(NewMission(id, data).value)) <==>
              && "name" in data && "scientist_id" in data && "planet_id" in data
              && NonEmptyStr(data["name"])
              && data["scientist_id"] != Null && Bindable(data["scientist_id"])
              && data["planet_id"] != Null && Bindable(data["planet_id"])
    ensures NewMission(id, data).Ok? && Committable(NewMission(id, data).value) ==>
              ValidMission(NewMission(id, data).value)
  {
    if "name" in data && Validate(MissionName, data["name"]).Ok? && Bindable(data["name"]) {
      StoredMissionNameIsNonEmptyStr(data["name"]);
    }
  }

  /** A mission whose scientist id matches no scientist is still built and
      committable; its `scientist` relationship is then empty. */
  lemma DanglingReferenceAccepted(ss: seq<Scientist>, id: int, name: string, sid: int, pid: int)
    requires name != []
    requires MinInt64 <= sid <= MaxInt64 && MinInt64 <= pid <= MaxInt64
    requires forall i :: 0 <= i < |ss| ==> ss[i].id != sid
    ensures var r := NewMission(id, map["name" := Str(name), "scientist_id" := Num(sid), "planet_id" := Num(pid)]);
            && r == Ok(Mission(id, Str(name), Num(sid), Num(pid)))
            && Committable(r.value)
            && ScientistOf(ss, r.value.scientistId) == None
  {
  }

  /** The attributes a PATCH body can change through a validator. */
  predicate IsValidatedKey(key: string) {
    key == "name" || key == "field_of_study"
  }

  /** `setattr(scientist, key, v)`. A key other than the two validated columns
      is an attribute the table does not store, and changes no column. */
  function SetAttr(s: Scientist, key: string, v: Value): (r: Result<Scientist, Exception>)
    ensures r.Ok? <==> !IsValidatedKey(key) || NonEmptyStr(v)
    ensures r.Ok? ==> r.value.id == s.id
  {
    if key == "name" then
      match Validate(ScientistName, v)
      case Err(e) => Err(e)
      case Ok(x) => Ok(s.(name := x))
    else if key == "field_of_study" then
      match Validate(ScientistFieldOfStudy, v)
      case Err(e) => Err(e)
      case Ok(x) => Ok(s.(fieldOfStudy := x))
    else Ok(s)
  }

  /** `for attr in data: setattr(scientist, attr, data[attr])`: the entries
      applied in order, stopping at the first that raises. */
  function ApplyPatch(s: Scientist, data: seq<(string, Value)>): (r: Result<Scientist, Exception>)
    ensures r.Ok? ==> r.value.id == s.id
    ensures r.Err? ==> exists j :: 0 <= j < |data| && IsValidatedKey(data[j].0) && !NonEmptyStr(data[j].1)
    decreases |data|
  {
    if data == [] then Ok(s)
    else match SetAttr(s, data[0].0, data[0].1)
      case Err(e) => Err(e)
      case Ok(s') => ApplyPatch(s', data[1..])
  }

  /** The value of the last entry for `key`, or `dflt` when no entry has it. */
  function LastValue(data: seq<(string, Value)>, key: string, dflt: Value): Value
    decreases |data|
  {
    if data == [] then dflt
    else if data[|data| - 1].0 == key then data[|data| - 1].1
    else LastValue(data[..|data| - 1], key, dflt)
  }

  /** Every entry that names a validated column carries a non-empty string. */
  predicate PatchAcceptable(data: seq<(string, Value)>) {
    forall j :: 0 <= j < |data| && IsValidatedKey(data[j].0) ==> NonEmptyStr(data[j].1)
  }

  /** The update succeeds exactly when no entry fails its validator. */
  lemma {:induction false} PatchSucceedsExactly(s: Scientist, data: seq<(string, Value)>)
    ensures ApplyPatch(s, data).Ok? <==> PatchAcceptable(data)
    decreases |data|
  {
    if data != [] {
      var r := SetAttr(s, data[0].0, data[0].1);
      if r.Ok? {
        PatchSucceedsExactly(r.value, data[1..]);
        assert PatchAcceptable(data) <==> PatchAcceptable(data[1..]) by {
          if PatchAcceptable(data[1..]) {
            forall j | 0 <= j < |data| && IsValidatedKey(data[j].0) ensures NonEmptyStr(data[j].1) {
              if j > 0 { assert data[j] == data[1..][j - 1]; }
            }
          }
          if PatchAcceptable(data) {
            forall j | 0 <= j < |data[1..]| && IsValidatedKey(data[1..][j].0)
              ensures NonEmptyStr(data[1..][j].1)
            {
              assert data[1..][j] == data[j + 1];
            }
          }
        }
      }
    }
  }

  /** Applying one more entry continues from the state the earlier entries left. */
  lemma {:induction false} PatchSnoc(s: Scientist, data: seq<(string, Value)>, e: (string, Value))
    ensures ApplyPatch(s, data + [e]) ==
              match ApplyPatch(s, data)
              case Err(x) => Err(x)
              case Ok(s') => SetAttr(s', e.0, e.1)
    decreases |data|
  {
    if data == [] {
      assert [e][1..] == [];
    } else {
      assert (data + [e])[0] == data[0];
      assert (data + [e])[1..] == data[1..] + [e];
      var r := SetAttr(s, data[0].0, data[0].1);
      if r.Ok? {
        PatchSnoc(r.value, data[1..], e);
      }
    }
  }

  /** A successful update leaves the key alone and gives each validated column
      the value of the last entry that names it, or its old value. */
  lemma {:induction false} PatchResult(s: Scientist, data: seq<(string, Value)>)
    requires ApplyPatch(s, data).Ok?
    ensures ApplyPatch(s, data).value ==
              Scientist(s.id, LastValue(data, "name", s.name),
                        LastValue(data, "field_of_study", s.fieldOfStudy))
    decreases |data|
  {
    if data != [] {
      var init, e := data[..|data| - 1], data[|data| - 1];
      assert data == init + [e];
      PatchSnoc(s, init, e);
      if ApplyPatch(s, init).Err? {
        assert false;
      }
      PatchResult(s, init);
    }
  }

  /** A successful update keeps a scientist row valid. */
  lemma {:induction false} PatchKeepsValid(s: Scientist, data: seq<(string, Value)>)
    requires ValidScientist(s) && ApplyPatch(s, data).Ok?
    ensures ValidScientist(ApplyPatch(s, data).value)
    decreases |data|
  {
    if data != [] {
      PatchKeepsValid(SetAttr(s, data[0].0, data[0].1).value, data[1..]);
    }
  }

  /** Taking a row out of a table with distinct keys keeps its keys distinct. */
  lemma RemoveKeepsDistinct(ss: seq<Scientist>, i: nat)
    requires i < |ss| && Distinct(ScientistIds(ss))
    ensures Distinct(ScientistIds(ss[..i] + ss[i + 1..]))
  {
    var t := ss[..i] + ss[i + 1..];
    forall a, b | 0 <= a < b < |t| ensures t[a].id != t[b].id {
      var a' := if a < i then a else a + 1;
      var b' := if b < i then b else b + 1;
      assert t[a] == ss[a'] && t[b] == ss[b'];
      assert ScientistIds(ss)[a'] != ScientistIds(ss)[b'];
    }
  }

  /** The missions left by the cascade keep distinct keys. */
  lemma {:induction false} UnlinkedKeepsDistinct(ms: seq<Mission>, sid: int)
    requires Distinct(MissionIds(ms))
    ensures Distinct(MissionIds(Unlinked(ms, sid)))
  {
    if ms != [] {
      var m, rest := ms[0], ms[1..];
      assert Distinct(MissionIds(rest)) by {
        forall i, j | 0 <= i < j < |rest| ensures rest[i].id != rest[j].id {
          assert MissionIds(ms)[i + 1] != MissionIds(ms)[j + 1];
        }
      }
      UnlinkedKeepsDistinct(rest, sid);
      var u := Unlinked(rest, sid);
      if !Owns(sid, m) {
        forall k | 0 <= k < |u| ensures u[k].id != m.id {
          assert u[k] in rest;
          var j :| 0 <= j < |rest| && rest[j] == u[k];
          assert MissionIds(ms)[0] != MissionIds(ms)[j + 1];
        }
        var t := [m] + u;
        forall a, b | 0 <= a < b < |t| ensures t[a].id != t[b].id {
          if a > 0 { assert MissionIds(u)[a - 1] != MissionIds(u)[b - 1]; }
        }
      }
    }
  }
}
