# Cosmic challenge backend: a verified model

The system is a small Flask/SQLAlchemy backend over three tables:
planets, scientists and missions. A mission references one scientist and one
planet by foreign key. This project models two parts of it.

- The field validators of `server/models.py`: the `@validates` hooks that
  SQLAlchemy runs whenever a column attribute is assigned, and the
  `serialize_rules` each model declares.
- The request handlers of `server/app.py`, as operations on an in-memory store
  of the three tables. The handlers are list scientists, create a scientist,
  get, patch and delete a scientist, list planets, list missions and create a
  mission.

Files:

- `wrappers.dfy`: `Option` and `Result`.
- `values.dfy`: a decoded JSON value as Python sees it, with Python truthiness,
  `len`, and whether the database driver can bind the value at commit.
- `models.dfy`: the three row types, the validators, and lemmas about what
  each validator accepts.
- `rules.dfy`: the serialization rules as typed attribute paths, with the
  relationship graph they refer to.
- `tables.dfy`: pure operations on the tables. These are key lookup, the
  `missions` relationship, row construction through the validators, the
  attribute-by-attribute PATCH and mission deletion, with their lemmas.
- `app.dfy`: class `Store`, which holds the tables. Each handler is a method
  or function, and a store invariant is preserved by every handler.

Three behaviours of the code are worth stating up front.

- The id validators' messages ("A mission must have a valid scientist id")
  suggest an existence check. But the query built at `server/models.py:85`
  and `:93` is never run; the validators only test the query object's
  truthiness. Such an object is always truthy, so only `None` is refused. A
  mission that names a missing scientist is created with status 201. Its
  `scientist` relationship is then empty (`Tables.DanglingReferenceAccepted`).
  A scientist created later under that key picks the mission up, and
  `CreateScientist`'s round-trip postcondition reports it among the
  scientist's missions.
- The check `name and len(name) > 0` (`server/models.py:78`) also admits a
  non-empty list or dict. Such a value cannot be bound when the session
  commits, and the handler's bare `except` turns that failure into 400. The
  same happens to an integer outside the signed 64-bit range in any column.
  A stored mission name is therefore always a non-empty string
  (`Models.StoredMissionNameIsNonEmptyStr`).
- The rule `"-signups"` used for scientist responses names no relationship of
  `Scientist` and excludes nothing (`Rules.ScientistResponseIsColumnsOnly`).

## Model

| member | source | states |
|---|---|---|
| `Models.ValidateScientistColumn` | server/models.py:49-61 | `name` and `field_of_study` are accepted exactly when the value is a non-empty `str`. An accepted value is stored unchanged. Anything else, `None` included, raises `ValueError`. |
| `Models.ValidateMissionName` | server/models.py:76-81 | The mission name is accepted exactly when it is truthy and has a length. An accepted value is returned unchanged. Every falsy value raises `ValueError` with the mission-name message. |
| `Models.ValidateScientistId` | server/models.py:83-89 | `scientist_id` is refused only when it is `None`. Any other value is returned unchanged, whatever the scientists table holds. |
| `Models.ValidatePlanetId` | server/models.py:91-97 | `planet_id` is refused only when it is `None`. Any other value is returned unchanged. |
| `Models.Validate` | server/models.py:20-97 | Assigning any column either raises or stores the assigned value unchanged. |
| `Models.PlanetAdmitsEverything` | server/models.py:20-32 | Planet declares no validator, so every value of `name`, `distance_from_earth` and `nearest_star` is admitted unchanged. |
| `Models.RevalidateAccepted` | server/models.py:49-97 | Validators are the identity on accepted input, so assigning an accepted value again gives the same result. |
| `Models.MissionNameAcceptsExactly` | server/models.py:76-81 | Over JSON kinds, the mission name validator accepts exactly non-empty strings, arrays and objects. For a string this is the scientist rule. A truthy number or boolean is refused because `len` raises `TypeError`. |
| `Models.StoredMissionNameIsNonEmptyStr` | server/models.py:76-81 | A mission name that passes the validator and can be bound at commit is a non-empty string. |
| `Models.NonEmptyStrAcceptedEverywhere` | server/models.py:49-97 | A non-empty string is accepted unchanged by every column. |
| `Models.IdValidatorsIgnoreExistence` | server/models.py:83-97 | Both id validators accept every non-`None` value, so every integer id is accepted, including one that matches no row. |
| `Rules.Related` | server/models.py:29-44 | The declared relationships are `Planet.missions` and `Scientist.missions`, with backrefs `Mission.planet` and `Mission.scientist`. A relationship leads to `Mission` exactly when it starts from a planet or a scientist. |
| `Rules.DefaultRules` | server/models.py:29-73 | Every rule a model declares in `serialize_rules` names a back-edge of that model: a two-step relationship path that returns to the model's own kind. |
| `Rules.DefaultRulesAreTheBackEdges` | server/models.py:29-73 | Each model's `serialize_rules` excludes exactly its back-edges. A back-edge is a two-step relationship path that returns to the model's own kind. Planet drops `missions.planet`, Scientist drops `missions.scientist`, and Mission drops `planet.missions` and `scientist.missions`. |
| `Rules.MissionNeverEmbedsMissionLists` | server/models.py:73 | A serialized mission never includes the mission list of its planet or of its scientist. |
| `Rules.ScientistResponseRules` | server/app.py:44-45 | The rules `("-signups", "-missions")` for a created scientist exclude every relationship of `Scientist`. |
| `Rules.ScientistResponseIsColumnsOnly` | server/app.py:44-45 | The rules for a created or patched scientist exclude every relationship of `Scientist`, so the body holds the columns alone. `"-signups"` is inert and `"-missions"` is not. |
| `Rules.MissionListRules` | server/app.py:86-88 | The rules `("-scientist", "-planet")` for each entry of the mission list exclude every relationship of `Mission`. |
| `Rules.MissionListIsColumnsOnly` | server/app.py:86-88 | The rules for the mission list exclude both relationships of `Mission`, so each entry holds the mission's columns alone. |
| `Tables.IndexOf` | server/app.py:53 | `.first()` finds the position of the first row with the key, and no earlier row has it. `None` means no row has the key. |
| `Tables.FindScientist` | server/app.py:53 | The scientist lookup finds a row with the requested key, or reports `None` exactly when no row has it. |
| `Tables.ScientistOf` | server/models.py:43-44 | `mission.scientist` is a stored scientist whose key equals the foreign key. It is `None` exactly when no scientist has that key. |
| `Tables.PlanetOf` | server/models.py:29-30 | `mission.planet` is a stored planet whose key equals the foreign key. It is `None` exactly when no planet has that key. |
| `Tables.MissionsOf` | server/models.py:43-44 | `scientist.missions` holds exactly the stored missions whose `scientist_id` is the scientist's key. |
| `Tables.Unlinked` | server/app.py:67-71 | The missions that survive the cascade are exactly the stored missions not belonging to the scientist. Together with the scientist's missions they account for the whole table. |
| `Tables.DeleteMission` | server/app.py:69 | `session.delete(mission)` leaves exactly the rows with a different key. |
| `Tables.WithoutIds` | server/app.py:68-69 | After a batch of deletions, exactly the rows whose key is not in the batch remain. |
| `Tables.DeleteExtends` | server/app.py:68-69 | One more deletion extends the set of deleted keys by that mission's key. |
| `Tables.DeletedNext` | server/app.py:68-69 | Each iteration of the deletion loop extends the deleted prefix of the scientist's missions by one. |
| `Tables.CascadeRemovesOwned` | server/app.py:67-70 | With distinct keys, deleting the scientist's missions one by one leaves exactly the missions of other scientists, in table order. |
| `Tables.UnlinkedKeepsDistinct` | server/app.py:67-71 | The missions left by the cascade still have distinct keys. |
| `Tables.NewScientist` | server/app.py:38-41 | Construction succeeds exactly when the body has both keys and both values are non-empty strings. The row then holds the supplied values under the new key and satisfies the scientist invariant. |
| `Tables.NewMission` | server/app.py:93-97 | Construction succeeds exactly when the body has all three keys, the name passes its validator and neither id is `None`. The row holds the supplied values. Existing rows play no part. |
| `Tables.NewMissionStoredExactly` | server/app.py:91-102 | A mission is stored exactly when all three keys are present, the name is a non-empty string and each id is neither `None`, an array or object, nor an integer outside the signed 64-bit range. The stored row satisfies the mission invariant. |
| `Tables.Committable` | server/app.py:98-99 | The commit succeeds exactly when every column value can be bound. A committed name that passed the mission-name validator is a non-empty string. |
| `Tables.DanglingReferenceAccepted` | server/models.py:83-89 | A mission naming a scientist key that no row has is built and committable, and its `scientist` relationship is empty. |
| `Tables.SetAttr` | server/app.py:61 | `setattr` fails exactly when the key is `name` or `field_of_study` and the value is not a non-empty string. It never changes the key. |
| `Tables.ApplyPatch` | server/app.py:60-61 | The attribute loop never changes the key. When it raises, some entry names `name` or `field_of_study` and carries a value that is not a non-empty string. |
| `Tables.PatchSucceedsExactly` | server/app.py:58-66 | The attribute loop completes exactly when every entry naming a validated column carries a non-empty string. Otherwise it raises, and the handler answers 400. |
| `Tables.PatchSnoc` | server/app.py:60-61 | Applying one more entry continues from the state the earlier entries left, and an earlier failure stops the loop. |
| `Tables.PatchResult` | server/app.py:60-63 | A successful PATCH keeps the key. Each validated column gets the value of the last entry naming it, or keeps its old value. |
| `Tables.PatchKeepsValid` | server/app.py:60-63 | A successful PATCH of a valid scientist row gives a valid row. |
| `Tables.RemoveKeepsDistinct` | server/app.py:70 | Deleting the scientist row keeps the remaining keys distinct. |
| `App.Store.ListScientists` | server/app.py:31-34 | GET /scientists answers 200 with one entry per stored scientist, in table order. |
| `App.Store.ListPlanets` | server/app.py:77-81 | GET /planets answers 200 with one entry per stored planet, in table order. |
| `App.Store.ListMissions` | server/app.py:86-89 | GET /missions answers 200 with one entry per stored mission, in table order. |
| `App.Store.GetScientist` | server/app.py:51-74 | The route's `<int:id>` matches only non-negative ids. An id above 2^63-1 cannot be bound by the lookup, which runs outside any `try`, so the answer is 500. Otherwise GET /scientists/id answers 200 exactly when a scientist has that key, with that scientist and its missions, and 404 "Scientist not found" when none has it. |
| `App.Store.CreateScientist` | server/app.py:35-48 | Once every 64-bit key is taken, the insert fails and the answer is 400 with nothing changed. Otherwise, on success the scientist table grows by exactly the validated row, the answer is 201 with its columns, and a later GET returns the supplied values. On failure the answer is 400 and the table is unchanged. Nothing else changes. |
| `App.Store.PatchScientist` | server/app.py:51-66 | An id above 2^63-1 gives 500 and no change. An unknown key gives 404 and no change. If every assignment succeeds, the row is replaced by the patched row, the answer is 202, and GET returns it. If any assignment raises, the answer is 400 and the stored scientist is unchanged. Planets and missions never change. The invariant is kept. |
| `App.Store.DeleteScientist` | server/app.py:51-74 | An id above 2^63-1 gives 500 and no change. An unknown key gives 404 and no change. Otherwise the scientist row and exactly its missions are removed, other missions keep their order, planets are untouched, the answer is 204 and a later GET gives 404. |
| `App.Store.CreateMission` | server/app.py:90-102 | When construction succeeds and every value can be bound (no array or object, no integer outside the signed 64-bit range), the mission table grows by exactly that row. The answer is 201 with the mission and the scientist and planet it references, each possibly absent. Otherwise the answer is 400 and the table is unchanged. Scientists and planets never change. |
| `App.CascadeKeepsConsistent` | server/app.py:67-71 | Removing a scientist and its missions keeps keys distinct, scientist keys within the 64-bit range, and every remaining row valid. |

## Left out

- Flask setup, routing, the database URI, migrations, `app.run` and the `/`
  route (`server/app.py:1-26`, `105-106`) are configuration and I/O.
- The metadata naming convention (`server/models.py:7-17`) is schema detail
  with no behaviour.
- The `sqlalchemy_serializer` library's `to_dict` expansion is not modelled.
  The rules are kept as data, with lemmas on which edges they name. A
  response body records which rows it is built from, not the nested
  dictionary.
- App.Store.ListScientists: returns the rows themselves. The `only=`
  projection names exactly the columns the row type holds.
- App.Store.ListPlanets: returns the rows themselves. The `only=` projection
  names exactly the columns the row type holds.
- App.Store.ListMissions: returns the rows themselves. The rules drop both
  relationships, leaving the columns the row type holds
  (`Rules.MissionListIsColumnsOnly`).
- App.Store.GetScientist: the body records the scientist and its missions.
  How the library renders each mission's planet below that is not modelled.
- Keys come from counters that start at 1. SQLite's choice of max(rowid)+1,
  which can reuse a deleted key, is not modelled. Once the scientist counter
  passes 2^63-1, the insert is modelled as failing. SQLite's search for an
  unused key at random is not modelled. Mission keys are not bounded, since
  no handler looks a mission up by key.
- Negative path ids: the `<int:id>` converter does not match them, so Flask's
  own 404 page answers before any handler runs. The three handlers on
  `/scientists/<id>` require `0 <= id`.
- The database stores values as given. SQLite's column-affinity conversions
  are not modelled, such as a boolean stored as 0 or 1 or a numeric string
  stored in an integer column. A mission belongs to scientist `k` exactly when
  its `scientist_id` is the JSON number `k`.
- Two commit failures are modelled: a list or dict value cannot be bound, and
  neither can an integer outside the signed 64-bit range. Other database errors are not modelled, including foreign-key enforcement,
  which SQLite leaves off by default.
- Strings are sequences of Unicode scalar values. A JSON string with an
  unpaired surrogate escape such as `"\ud800"` passes the validators
  (`server/models.py:52`, `:57`, `:78`), but the sqlite3 driver cannot encode
  it, so the commit raises and the handler answers 400. Such strings are not
  modelled, so this third commit failure is not either.
- JSON decoding of the request body is not modelled. A POST body is a map
  from keys to values, and a PATCH body is the ordered list of its entries. A
  decoded JSON object has distinct keys; the PATCH model also admits repeated
  keys, and then the last entry naming a column wins (`Tables.PatchResult`). A
  body that is not a JSON object is not modelled.
- Fractional JSON numbers are not modelled. Every check treats them like
  integers: `0.0` is falsy, `len` raises, and only `None` fails the id
  validators.
- Tables.SetAttr: a PATCH key other than `name` and `field_of_study` is
  treated as an attribute the table does not store. Assigning the mapped `id`
  or `missions` attributes, or overwriting a class attribute, is not modelled.
- The bare `except:` in the handlers is modelled as a single outcome, 400
  with `{"errors": ["validation errors"]}`. The `Exception` kinds only record
  which step raised.
- Session rollback and teardown are modelled as "the store is unchanged"
  whenever the handler does not reach `db.session.commit()`.
- Requests do not run concurrently: each handler runs atomically and in
  sequence.
