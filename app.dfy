/** The request handlers of server/app.py as operations on an in-memory store
    holding the three tables. Each handler runs to completion on its own; a
    handler that does not reach `db.session.commit()` leaves the store as it
    was. Responses carry a status code and the records the body is built from. */
module App {
  import opened Wrappers
  import opened Values
  import opened Models
  import opened Rules
  import opened Tables

  /** The response bodies the handlers produce. */
  datatype Body =
    | ScientistList(scientists: seq<Scientist>)    // `to_dict(only=("id", "name", "field_of_study"))` per row
    | PlanetList(planets: seq<Planet>)             // `to_dict(only=(...))` with all four columns per row
    | MissionList(missions: seq<Mission>)          // `to_dict(rules=MissionListRules())` per row
    | ScientistColumns(scientist: Scientist)       // `to_dict(rules=ScientistResponseRules())`
    | ScientistDetail(scientist: Scientist, missions: seq<Mission>)  // `to_dict()`: the scientist and its missions
    | MissionDetail(mission: Mission, owner: Option<Scientist>, target: Option<Planet>)  // `to_dict()`: the mission and the rows it references
    | ValidationErrors                              // {"errors": ["validation errors"]}
    | ScientistNotFound                             // {"error": "Scientist not found"}
    | ServerError                                   // Flask's 500 page: an exception escaped the handler
    | Empty                                         // {}

  datatype Response = Response(status: int, body: Body)

  const Failed := Response(400, ValidationErrors)
  const NotFound := Response(404, ScientistNotFound)
  const Crashed := Response(500, ServerError)

  class Store {
    var planets: seq<Planet>
    var scientists: seq<Scientist>
    var missions: seq<Mission>
    /** The keys the database hands out next. */
    var nextScientistId: int
    var nextMissionId: int

    /** The store's tables satisfy `Consistent`. */
    ghost predicate Valid()
      reads this
    {
      Consistent(planets, scientists, missions, nextScientistId, nextMissionId)
    }

    /** A store whose planets table was filled beforehand and whose other tables are empty. */
    constructor (planets: seq<Planet>)
      requires Distinct(PlanetIds(planets))
      ensures Valid()
      ensures this.planets == planets && scientists == [] && missions == []
      ensures nextScientistId == 1 && nextMissionId == 1
    {
      this.planets := planets;
      scientists := [];
      missions := [];
      nextScientistId := 1;
      nextMissionId := 1;
    }

    /** GET /scientists: one entry per stored scientist, in table order. */
    function ListScientists(): (r: Response)
      reads this
      ensures r.status == 200 && r.body.ScientistList?
      ensures r.body.scientists == scientists
    {
      Response(200, ScientistList(scientists))
    }

    /** GET /planets: one entry per stored planet, in table order. */
    function ListPlanets(): (r: Response)
      reads this
      ensures r.status == 200 && r.body.PlanetList?
      ensures r.body.planets == planets
    {
      Response(200, PlanetList(planets))
    }

    /** GET /missions: one entry per stored mission, in table order, without
        the scientist and planet it references. */
    function ListMissions(): (r: Response)
      reads this
      ensures r.status == 200 && r.body.MissionList?
      ensures r.body.missions == missions
    {
      Response(200, MissionList(missions))
    }

    /** GET /scientists/<id>: the scientist with that key and its missions, or
        404. The `<int:id>` converter matches only digits, hence `0 <= id`; the
        lookup runs outside any `try`, so a key the driver cannot bind (above
        2^63-1) raises OverflowError and Flask answers 500. */
    function GetScientist(id: int): (r: Response)
      requires 0 <= id
      reads this
      ensures r.status == 200 || r == NotFound || r == Crashed
      ensures r == Crashed <==> id > MaxInt64
      ensures r.status == 200 <==> id <= MaxInt64 && exists i :: 0 <= i < |scientists| && scientists[i].id == id
      ensures r.status == 200 ==> r.body.ScientistDetail? && r.body.scientist in scientists
                                  && r.body.scientist.id == id
                                  && r.body.missions == MissionsOf(missions, id)
    {
      if id > MaxInt64 then Crashed
      else match FindScientist(scientists, id)
      case None => NotFound
      case Some(i) => Response(200, ScientistDetail(scientists[i], MissionsOf(missions, id)))
    }

    /** POST /scientists. */
    method CreateScientist(data: map<string, Value>) returns (resp: Response)
      requires Valid()
      modifies this
      ensures Valid()
      ensures old(nextScientistId) > MaxInt64 ==>
                resp == Failed && scientists == old(scientists) && nextScientistId == old(nextScientistId)
      ensures old(nextScientistId) <= MaxInt64 ==>
              match NewScientist(old(nextScientistId), data)
              case Ok(s) =>
                && resp == Response(201, ScientistColumns(s))
                && scientists == old(scientists) + [s]
                && nextScientistId == old(nextScientistId) + 1
                && GetScientist(s.id) == Response(200, ScientistDetail(s, MissionsOf(missions, s.id)))
              case Err(_) =>
                && resp == Failed
                && scientists == old(scientists)
                && nextScientistId == old(nextScientistId)
      ensures planets == old(planets) && missions == old(missions)
      ensures nextMissionId == old(nextMissionId)
    {
      if nextScientistId > MaxInt64 {
        // every 64-bit key is taken: the insert fails at commit
        return Failed;
      }
      var r := NewScientist(nextScientistId, data);
      if r.Err? {
        return Failed;
      }
      var s := r.value;
      assert Distinct(ScientistIds(scientists + [s])) by {
        assert forall i :: 0 <= i < |scientists| ==> ScientistIds(scientists)[i] < s.id;
      }
      scientists := scientists + [s];
      nextScientistId := nextScientistId + 1;
      assert FindScientist(scientists, s.id) == Some(|scientists| - 1) by {
        assert ScientistIds(scientists)[|scientists| - 1] == s.id;
        assert forall j :: 0 <= j < |scientists| - 1 ==> ScientistIds(scientists)[j] != s.id;
      }
      resp := Response(201, ScientistColumns(s));
    }

    /** PATCH /scientists/<id>: each entry of the body assigned in order; the
        changes are committed only when every assignment succeeded. */
    method PatchScientist(id: int, data: seq<(string, Value)>) returns (resp: Response)
      requires Valid() && 0 <= id
      modifies this
      ensures Valid()
      ensures id > MaxInt64 ==> resp == Crashed && scientists == old(scientists)
      ensures id <= MaxInt64 ==>
              match FindScientist(old(scientists), id)
              case None => resp == NotFound && scientists == old(scientists)
              case Some(i) =>
                match ApplyPatch(old(scientists)[i], data)
                case Ok(s) => resp == Response(202, ScientistColumns(s))
                              && scientists == old(scientists)[i := s]
                              && GetScientist(id) == Response(200, ScientistDetail(s, MissionsOf(missions, id)))
                case Err(_) => resp == Failed && scientists == old(scientists)
      ensures planets == old(planets) && missions == old(missions)
      ensures nextScientistId == old(nextScientistId) && nextMissionId == old(nextMissionId)
    {
      if id > MaxInt64 {
        return Crashed;
      }
      var found := FindScientist(scientists, id);
      if found.None? {
        return NotFound;
      }
      var i := found.value;
      var s := scientists[i];
      var k := 0;
      while k < |data|
        invariant 0 <= k <= |data|
        invariant ApplyPatch(scientists[i], data) == ApplyPatch(s, data[k..])
      {
        var r := SetAttr(s, data[k].0, data[k].1);
        if r.Err? {
          return Failed;
        }
        s := r.value;
        k := k + 1;
      }
      assert data[k..] == [];
      PatchResult(scientists[i], data);
      PatchKeepsValid(scientists[i], data);
      assert ScientistIds(scientists[i := s]) == ScientistIds(scientists);
      scientists := scientists[i := s];
      assert FindScientist(scientists, id) == Some(i);
      resp := Response(202, ScientistColumns(s));
    }

    /** DELETE /scientists/<id>: each of the scientist's missions deleted in
        turn, then the scientist. */
    method DeleteScientist(id: int) returns (resp: Response)
      requires Valid() && 0 <= id
      modifies this
      ensures Valid()
      ensures id > MaxInt64 ==> resp == Crashed && scientists == old(scientists)
                                && missions == old(missions)
      ensures id <= MaxInt64 ==>
              match FindScientist(old(scientists), id)
              case None => resp == NotFound && scientists == old(scientists)
                           && missions == old(missions)
              case Some(i) => resp == Response(204, Empty)
                              && scientists == old(scientists)[..i] + old(scientists)[i + 1..]
                              && missions == Unlinked(old(missions), id)
                              && GetScientist(id) == NotFound
      ensures planets == old(planets)
      ensures nextScientistId == old(nextScientistId) && nextMissionId == old(nextMissionId)
    {
      if id > MaxInt64 {
        return Crashed;
      }
      var found := FindScientist(scientists, id);
      if found.None? {
        return NotFound;
      }
      var i := found.value;
      CascadeKeepsConsistent(planets, scientists, missions, nextScientistId, nextMissionId, i, id);
      CascadeRemovesOwned(missions, id);
      var linked := MissionsOf(missions, id);
      var remaining := missions;
      var k := 0;
      DeletedNone(missions, linked);
      while k < |linked|
        invariant 0 <= k <= |linked|
        invariant remaining == DeletedUpTo(missions, linked, k)
      {
        assert DeleteMission(remaining, linked[k].id) == DeletedUpTo(missions, linked, k + 1) by {
          DeletedNext(missions, linked, k);
        }
        remaining := DeleteMission(remaining, linked[k].id);
        k := k + 1;
      }
      assert linked[..k] == linked;
      missions := remaining;
      scientists := scientists[..i] + scientists[i + 1..];
      resp := Response(204, Empty);
    }

    /** POST /missions. */
    method CreateMission(data: map<string, Value>) returns (resp: Response)
      requires Valid()
      modifies this
      ensures Valid()
      ensures match NewMission(old(nextMissionId), data)
              case Ok(m) =>
                if Committable(m) then
                  && resp == Response(201, MissionDetail(m, ScientistOf(scientists, m.scientistId),
                                                            PlanetOf(planets, m.planetId)))
                  && missions == old(missions) + [m]
                  && nextMissionId == old(nextMissionId) + 1
                else
                  resp == Failed && missions == old(missions) && nextMissionId == old(nextMissionId)
              case Err(_) =>
                resp == Failed && missions == old(missions) && nextMissionId == old(nextMissionId)
      ensures planets == old(planets) && scientists == old(scientists)
      ensures nextScientistId == old(nextScientistId)
    {
      var r := NewMission(nextMissionId, data);
      if r.Err? || !Committable(r.value) {
        return Failed;
      }
      var m := r.value;
      NewMissionStoredExactly(nextMissionId, data);
      assert Distinct(MissionIds(missions + [m])) by {
        assert forall i :: 0 <= i < |missions| ==> MissionIds(missions)[i] < m.id;
      }
      missions := missions + [m];
      nextMissionId := nextMissionId + 1;
      resp := Response(201, MissionDetail(m, ScientistOf(scientists, m.scientistId),
                                          PlanetOf(planets, m.planetId)));
    }
  }

  /** Keys are unique and below the next key handed out, scientist keys fit
      the signed 64-bit range, and every stored scientist and mission is one
      the validators and the commit admitted. */
  ghost predicate Consistent(ps: seq<Planet>, ss: seq<Scientist>, ms: seq<Mission>,
                             nextScientistId: int, nextMissionId: int)
  {
    && 1 <= nextScientistId <= MaxInt64 + 1
    && Distinct(PlanetIds(ps))
    && Distinct(ScientistIds(ss))
    && Distinct(MissionIds(ms))
    && (forall i :: 0 <= i < |ss| ==> ss[i].id < nextScientistId && ValidScientist(ss[i]))
    && (forall i :: 0 <= i < |ms| ==> ms[i].id < nextMissionId && ValidMission(ms[i]))
  }

  /** Removing a scientist row and the missions that belong to it keeps the
      store consistent. */
  lemma CascadeKeepsConsistent(ps: seq<Planet>, ss: seq<Scientist>, ms: seq<Mission>,
                               ns: int, nm: int, i: nat, id: int)
    requires Consistent(ps, ss, ms, ns, nm) && i < |ss|
    ensures Consistent(ps, ss[..i] + ss[i + 1..], Unlinked(ms, id), ns, nm)
  {
    RemoveKeepsDistinct(ss, i);
    UnlinkedKeepsDistinct(ms, id);
    var u := Unlinked(ms, id);
    forall j | 0 <= j < |u| ensures u[j].id < nm && ValidMission(u[j]) {
      assert u[j] in ms;
    }
    var t := ss[..i] + ss[i + 1..];
    forall j | 0 <= j < |t| ensures t[j].id < ns && ValidScientist(t[j]) {
      assert t[j] == ss[if j < i then j else j + 1];
    }
  }

  /** A client of the store: the exchange in which "Ada" is created, a mission
      is posted for her on planet 1, an empty name is refused, and deleting
      her removes the mission but not the planet; a path key past 2^63-1 crashes
      the handler. Checked from the handlers'
      contracts alone. */
  method ExampleSession() {
    var mars := Planet(1, Str("Mars"), Num(225), Str("Sun"));
    assert PlanetIds([mars]) == [1];
    var store := new Store([mars]);
    var ada := Scientist(1, Str("Ada"), Str("math"));
    var adaBody := map["name" := Str("Ada"), "field_of_study" := Str("math")];
    assert NewScientist(1, adaBody) == Ok(ada);
    var r := store.CreateScientist(adaBody);
    assert r == Response(201, ScientistColumns(ada));
    var m1 := Mission(1, Str("M1"), Num(1), Num(1));
    var m1Body := map["name" := Str("M1"), "scientist_id" := Num(1), "planet_id" := Num(1)];
    assert NewMission(1, m1Body) == Ok(m1);
    assert Committable(m1);
    r := store.CreateMission(m1Body);
    assert ScientistIds(store.scientists) == [1];
    assert ScientistOf(store.scientists, Num(1)) == Some(ada);
    assert PlanetOf(store.planets, Num(1)) == Some(mars);
    assert r == Response(201, MissionDetail(m1, Some(ada), Some(mars)));
    r := store.CreateScientist(map["name" := Str(""), "field_of_study" := Str("math")]);
    assert r == Failed && store.scientists == [ada];
    assert FindScientist(store.scientists, 1) == Some(0);
    assert MissionsOf(store.missions, 1) == [m1];
    r := store.DeleteScientist(MaxInt64 + 1);
    assert r == Crashed && store.scientists == [ada];
    r := store.DeleteScientist(1);
    assert r == Response(204, Empty);
    assert store.scientists == [] && store.missions == [] && store.planets == [mars];
  }
}
