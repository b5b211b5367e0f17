/** The serialization rules of server/models.py and server/app.py, kept as
    data. A rule "-a.b" tells the serializer not to emit the attribute path
    `a.b` below the record being serialized; here it is the path ["a", "b"]
    of attribute names. The serializer that applies the rules is not
    modelled: what is stated is which relationship edges each rule set names. */
module Rules {
  import opened Wrappers

  datatype Kind = PlanetKind | ScientistKind | MissionKind

  /** An exclusion rule: the attribute path it removes from the output. */
  datatype Rule = Exclude(path: seq<string>)

  /** The relationships the models declare: `Planet.missions` and
      `Scientist.missions`, with their backrefs `Mission.planet` and
      `Mission.scientist`. None for an attribute that is not a relationship. */
  function Related(k: Kind, attr: string): (r: Option<Kind>)
    ensures r.Some? ==> (r.value == MissionKind <==> k != MissionKind)
  {
    match k
    case PlanetKind => if attr == "missions" then Some(MissionKind) else None
    case ScientistKind => if attr == "missions" then Some(MissionKind) else None
    case MissionKind =>
      if attr == "planet" then Some(PlanetKind)
      else if attr == "scientist" then Some(ScientistKind)
      else None
  }

  /** The kind reached by following `path` from a record of kind `k`, if every
      step is a declared relationship. */
  function Walk(k: Kind, path: seq<string>): Option<Kind>
    decreases |path|
  {
    if path == [] then Some(k)
    else match Related(k, path[0])
      case None => None
      case Some(k') => Walk(k', path[1..])
  }

  /** The `serialize_rules` each model declares: each rule is a back-edge. */
  function DefaultRules(k: Kind): (r: seq<Rule>)
    ensures forall i :: 0 <= i < |r| ==> BackEdge(k, r[i].path)
  {
    match k
    case PlanetKind => [Exclude(["missions", "planet"])]
    case ScientistKind => [Exclude(["missions", "scientist"])]
    case MissionKind => [Exclude(["planet", "missions"]), Exclude(["scientist", "missions"])]
  }

  /** `rules=("-signups", "-missions")`, used for a created or patched
      scientist: it strips every relationship of Scientist. */
  function ScientistResponseRules(): (r: seq<Rule>)
    ensures StripsAllRelationships(ScientistKind, r)
  {
    [Exclude(["signups"]), Exclude(["missions"])]
  }

  /** `rules=("-scientist", "-planet")`, used for each mission of the list: it
      strips every relationship of Mission. */
  function MissionListRules(): (r: seq<Rule>)
    ensures StripsAllRelationships(MissionKind, r)
  {
    [Exclude(["scientist"]), Exclude(["planet"])]
  }

  /** A back-edge: one relationship out of a `k` record and its reverse, which
      returns to a record of kind `k` and would start the cycle. */
  predicate BackEdge(k: Kind, path: seq<string>) {
    |path| == 2 && Walk(k, path) == Some(k)
  }

  /** A two-step path walks one relationship and then another. */
  lemma WalkTwo(k: Kind, a: string, b: string)
    ensures Walk(k, [a, b]) == match Related(k, a)
                               case None => None
                               case Some(k') => Related(k', b)
  {
    assert [a, b][1..] == [b];
    assert [b][1..] == [];
    match Related(k, a)
    case None =>
    case Some(k') =>
      match Related(k', b)
      case None =>
      case Some(k'') =>
        assert Walk(k'', []) == Some(k'');
  }

  /** The default rules of every model name exactly its back-edges: each rule
      is one, and each back-edge is excluded. */
  lemma DefaultRulesAreTheBackEdges(k: Kind, path: seq<string>)
    ensures Exclude(path) in DefaultRules(k) <==> BackEdge(k, path)
  {
    if |path| == 2 {
      var a, b := path[0], path[1];
      assert path == [a, b];
      WalkTwo(k, a, b);
      if BackEdge(k, path) {
        match k
        case PlanetKind =>
          assert a == "missions" && Related(MissionKind, b) == Some(PlanetKind);
          assert b == "planet";
        case ScientistKind =>
          assert a == "missions" && Related(MissionKind, b) == Some(ScientistKind);
          assert b == "scientist";
        case MissionKind =>
          assert a == "planet" || a == "scientist";
          assert b == "missions";
      }
    }
  }

  /** The rule set excludes the one-step path to every relationship of `k`, so
      a `k` record is emitted with its columns alone. */
  ghost predicate StripsAllRelationships(k: Kind, rules: seq<Rule>) {
    forall attr :: Related(k, attr).Some? ==> Exclude([attr]) in rules
  }

  /** The rule names no relationship path of `k` and excludes nothing. */
  predicate Inert(k: Kind, rule: Rule) {
    Walk(k, rule.path) == None
  }

  /** The rules used for a created or patched scientist drop its only
      relationship, so the response carries the scientist's columns alone;
      "-signups" names no relationship of Scientist and has no effect. */
  lemma ScientistResponseIsColumnsOnly()
    ensures StripsAllRelationships(ScientistKind, ScientistResponseRules())
    ensures Inert(ScientistKind, ScientistResponseRules()[0])
    ensures !Inert(ScientistKind, ScientistResponseRules()[1])
  {
    assert Walk(ScientistKind, ["signups"]) == None by {
      assert Related(ScientistKind, "signups") == None;
    }
    assert Walk(ScientistKind, ["missions"]) == Some(MissionKind) by {
      assert ["missions"][1..] == [];
    }
  }

  /** The rules used for the mission list drop both of Mission's relationships,
      so each entry is the mission's columns alone. */
  lemma MissionListIsColumnsOnly()
    ensures StripsAllRelationships(MissionKind, MissionListRules())
    ensures forall i :: 0 <= i < |MissionListRules()| ==> !Inert(MissionKind, MissionListRules()[i])
  {
    assert ["scientist"][1..] == [] && ["planet"][1..] == [];
  }

  /** A serialized mission never includes the mission list of its planet or of
      its scientist. */
  lemma MissionNeverEmbedsMissionLists()
    ensures Exclude(["planet", "missions"]) in DefaultRules(MissionKind)
    ensures Exclude(["scientist", "missions"]) in DefaultRules(MissionKind)
    ensures BackEdge(MissionKind, ["planet", "missions"])
    ensures BackEdge(MissionKind, ["scientist", "missions"])
  {
    DefaultRulesAreTheBackEdges(MissionKind, ["planet", "missions"]);
    DefaultRulesAreTheBackEdges(MissionKind, ["scientist", "missions"]);
  }
}
