/** Key paths: how a key names an entity by the names and types along its path, and when it can name
    only one. */
module StorageEntityKeys {
  import opened Wrappers
  import opened Forest

  datatype KeyPart = KeyPart(name: string, typ: EntityType)

  datatype StorageEntityKey = StorageEntityKey(
    datacenter: KeyPart, grandParent: Option<KeyPart>, parent: Option<KeyPart>, child: KeyPart)

  function ParentTypeOf(typ: EntityType): Option<EntityType> {
    match typ
    case PORT_GROUP => Some(ADAPTER_GROUP)
    case PARITY_GROUP => Some(POOL)
    case _ => None
  }

  /** An absent name is the empty string: both count as missing. */
  function CreateComponentKey(
    systemName: string, subComponentName: string, subSubName: string, typ: EntityType): StorageEntityKey
  {
    var datacenter := KeyPart("CZ_Chodov", DATACENTER);
    var system := KeyPart(systemName, SYSTEM);
    if subSubName != "" && ParentTypeOf(typ).Some? then
      StorageEntityKey(datacenter, Some(system), Some(KeyPart(subComponentName, ParentTypeOf(typ).value)),
                       KeyPart(subSubName, typ))
    else if subComponentName != "" then
      StorageEntityKey(datacenter, None, Some(system), KeyPart(subComponentName, typ))
    else
      StorageEntityKey(datacenter, None, None, KeyPart(systemName, typ))
  }

  /** The parts below the datacenter, lowest first. */
  function GetKeyParts(key: StorageEntityKey): seq<KeyPart> {
    [key.child] + (if key.parent.Some? then [key.parent.value] else [])
                + (if key.grandParent.Some? then [key.grandParent.value] else [])
  }

  /** The entity carries the name and type of the part and, when a parent is given, hangs below it. */
  predicate MatchesPart(rows: Rows, part: KeyPart, under: Option<Id>, id: Id) {
    id in rows && rows[id].name == part.name && rows[id].typ == part.typ &&
    (under.Some? ==> rows[id].parent == under)
  }

  /** The entity and its ancestors carry the names and types of the key, lowest part first. */
  predicate MatchesKey(rows: Rows, parts: seq<KeyPart>, under: Option<Id>, id: Id)
    requires parts != []
  {
    if |parts| == 1 then MatchesPart(rows, parts[0], under, id)
    else
      MatchesPart(rows, parts[0], None, id) && rows[id].parent.Some? &&
      MatchesKey(rows, parts[1..], under, rows[id].parent.value)
  }

  /** Siblings differ in name or type, and no two systems share a name. */
  ghost predicate Distinct(rows: Rows) {
    forall x, y | x in rows && y in rows && x != y && rows[x].name == rows[y].name && rows[x].typ == rows[y].typ ::
      rows[x].typ != SYSTEM && (rows[x].parent.None? || rows[x].parent != rows[y].parent)
  }

  /** Below the datacenter a path of several parts starts at a system; systems occur nowhere else and
      datacenters only as the lowest part. */
  predicate KeyShape(parts: seq<KeyPart>, belowDatacenter: bool) {
    && parts != []
    && (belowDatacenter && |parts| > 1 ==> parts[|parts| - 1].typ == SYSTEM)
    && (forall i | 0 <= i < |parts| - (if belowDatacenter then 1 else 0) :: parts[i].typ != SYSTEM)
    && (forall i | 1 <= i < |parts| :: parts[i].typ != DATACENTER)
  }

  /** Every key built for a component has this shape, except one that puts a system below a system. */
  lemma ComponentKeyShape(systemName: string, subComponentName: string, subSubName: string, typ: EntityType)
    ensures KeyShape(GetKeyParts(CreateComponentKey(systemName, subComponentName, subSubName, typ)), true)
            <==> subComponentName == "" || typ != SYSTEM
  {
    var parts := GetKeyParts(CreateComponentKey(systemName, subComponentName, subSubName, typ));
    if subComponentName != "" && typ == SYSTEM {
      assert parts[0].typ == SYSTEM && |parts| == 2;
    }
  }

  /** The path each key names, lowest part first: a port below its adapter group and a parity group below its pool when
      both names are given, otherwise a component below the system, otherwise an entity with the system's name. */
  lemma ComponentKeyPath(systemName: string, subComponentName: string, subSubName: string, typ: EntityType)
    ensures var key := CreateComponentKey(systemName, subComponentName, subSubName, typ);
            && key.datacenter == KeyPart("CZ_Chodov", DATACENTER)
            && GetKeyParts(key) ==
                 if subSubName != "" && typ == PORT_GROUP then
                   [KeyPart(subSubName, PORT_GROUP), KeyPart(subComponentName, ADAPTER_GROUP), KeyPart(systemName, SYSTEM)]
                 else if subSubName != "" && typ == PARITY_GROUP then
                   [KeyPart(subSubName, PARITY_GROUP), KeyPart(subComponentName, POOL), KeyPart(systemName, SYSTEM)]
                 else if subComponentName != "" then
                   [KeyPart(subComponentName, typ), KeyPart(systemName, SYSTEM)]
                 else
                   [KeyPart(systemName, typ)]
  {
  }

  /** A part can match only one entity once systems are named uniquely or the parent is fixed. */
  lemma OnePartMatch(rows: Rows, part: KeyPart, under: Option<Id>, x: Id, y: Id)
    requires Distinct(rows) && (part.typ == SYSTEM || under.Some?)
    requires MatchesPart(rows, part, under, x) && MatchesPart(rows, part, under, y)
    ensures x == y
  {
  }

  /** A whole key can match only one entity once its top part can. */
  lemma {:induction false} OneKeyMatch(rows: Rows, parts: seq<KeyPart>, under: Option<Id>, x: Id, y: Id)
    requires Distinct(rows) && parts != [] && (parts[|parts| - 1].typ == SYSTEM || under.Some?)
    requires MatchesKey(rows, parts, under, x) && MatchesKey(rows, parts, under, y)
    ensures x == y
    decreases |parts|
  {
    if |parts| == 1 {
      OnePartMatch(rows, parts[0], under, x, y);
    } else {
      OneKeyMatch(rows, parts[1..], under, rows[x].parent.value, rows[y].parent.value);
      OnePartMatch(rows, parts[0], rows[x].parent, x, y);
    }
  }

  /** Matching from the top down: some entity matches the top part and the rest of the key below it. */
  lemma {:induction false} MatchesKeyByTop(rows: Rows, parts: seq<KeyPart>, under: Option<Id>, id: Id)
    requires |parts| > 1
    ensures MatchesKey(rows, parts, under, id) <==>
            exists e :: MatchesPart(rows, parts[|parts| - 1], under, e)
                        && MatchesKey(rows, parts[..|parts| - 1], Some(e), id)
    decreases |parts|
  {
    var top, rest := parts[|parts| - 1], parts[..|parts| - 1];
    if |parts| == 2 {
      assert parts[1..] == [top] && rest == [parts[0]];
      if id in rows && rows[id].parent.Some? {
        var e := rows[id].parent.value;
        assert MatchesPart(rows, parts[0], Some(e), id) <==> MatchesPart(rows, parts[0], None, id);
      }
    } else if id in rows && rows[id].parent.Some? {
      MatchesKeyByTop(rows, parts[1..], under, rows[id].parent.value);
      assert parts[1..][..|parts| - 2] == rest[1..];
    }
  }

  /** An entity created because nothing matched keeps systems and siblings distinct. */
  lemma DistinctAfterCreate(before: Rows, id: Id, e: Entity, under: Option<Id>)
    requires Distinct(before) && id !in before
    requires under.Some? ==> e.parent == under && e.typ != SYSTEM
    requires forall x :: !MatchesPart(before, KeyPart(e.name, e.typ), under, x)
    ensures Distinct(before[id := e])
  {
    assert forall x | x in before && before[x].name == e.name && before[x].typ == e.typ ::
        !MatchesPart(before, KeyPart(e.name, e.typ), under, x);
  }

  /** Where a search starts: anywhere below a datacenter, otherwise among the children of the parent. */
  function SearchUnder(rows: Rows, parentEntity: Id): Option<Id>
    requires parentEntity in rows
  {
    if rows[parentEntity].typ == DATACENTER then None else Some(parentEntity)
  }

  /** Some entity of the store already carries the whole key. */
  ghost predicate KeyExists(rows: Rows, parts: seq<KeyPart>, parentEntity: Id)
    requires parentEntity in rows && parts != []
  {
    exists id :: MatchesKey(rows, parts, SearchUnder(rows, parentEntity), id)
  }

  ghost predicate KeyNamed(rows: Rows, key: StorageEntityKey) {
    exists id :: MatchesKey(rows, GetKeyParts(key), None, id)
  }

  predicate TopIsSystem(key: StorageEntityKey) {
    var parts := GetKeyParts(key);
    parts[|parts| - 1].typ == SYSTEM
  }

  /** p is the entity the lowest part of the key belongs below. */
  ghost predicate HangsBelow(rows: Rows, parts: seq<KeyPart>, parentEntity: Id, p: Id)
    requires parentEntity in rows && parts != []
  {
    if |parts| == 1 then p == parentEntity else MatchesKey(rows, parts[1..], SearchUnder(rows, parentEntity), p)
  }

  /** One step down: with entity the match of the top part, the key exists exactly when its rest exists below entity. */
  lemma KeyExistsByTop(rows: Rows, parts: seq<KeyPart>, parentEntity: Id, entity: Id)
    requires |parts| > 1 && parentEntity in rows && Distinct(rows)
    requires KeyShape(parts, rows[parentEntity].typ == DATACENTER)
    requires MatchesPart(rows, parts[|parts| - 1], SearchUnder(rows, parentEntity), entity)
    ensures rows[entity].typ != DATACENTER && KeyShape(parts[..|parts| - 1], false)
    ensures forall id :: MatchesKey(rows, parts, SearchUnder(rows, parentEntity), id) <==>
                         MatchesKey(rows, parts[..|parts| - 1], SearchUnder(rows, entity), id)
    ensures forall p :: HangsBelow(rows, parts, parentEntity, p) <==> HangsBelow(rows, parts[..|parts| - 1], entity, p)
  {
    var top, rest, under := parts[|parts| - 1], parts[..|parts| - 1], SearchUnder(rows, parentEntity);
    forall id ensures MatchesKey(rows, parts, under, id) <==> MatchesKey(rows, rest, Some(entity), id) {
      TopDownMatch(rows, parts, under, entity, id);
    }
    forall p ensures HangsBelow(rows, parts, parentEntity, p) <==> HangsBelow(rows, rest, entity, p) {
      if |parts| == 2 {
        assert parts[1..] == [top];
        if MatchesPart(rows, top, under, p) { OnePartMatch(rows, top, under, p, entity); }
      } else {
        assert parts[1..][..|parts| - 2] == rest[1..];
        TopDownMatch(rows, parts[1..], under, entity, p);
      }
    }
  }

  lemma TopDownMatch(rows: Rows, parts: seq<KeyPart>, under: Option<Id>, entity: Id, id: Id)
    requires |parts| > 1 && Distinct(rows)
    requires parts[|parts| - 1].typ == SYSTEM || under.Some?
    requires MatchesPart(rows, parts[|parts| - 1], under, entity)
    ensures MatchesKey(rows, parts, under, id) <==> MatchesKey(rows, parts[..|parts| - 1], Some(entity), id)
  {
    var top, rest := parts[|parts| - 1], parts[..|parts| - 1];
    MatchesKeyByTop(rows, parts, under, id);
    if e :| MatchesPart(rows, top, under, e) && MatchesKey(rows, rest, Some(e), id) {
      OnePartMatch(rows, top, under, e, entity);
    }
  }

  /** Without a match for the top part neither the key nor the place its lowest part hangs below exists. */
  lemma NoKeyWithoutTop(rows: Rows, parts: seq<KeyPart>, parentEntity: Id, top: KeyPart)
    requires parentEntity in rows && parts != [] && top == parts[|parts| - 1]
    requires forall e :: !MatchesPart(rows, top, SearchUnder(rows, parentEntity), e)
    ensures !KeyExists(rows, parts, parentEntity)
    ensures |parts| > 1 ==> forall p :: !HangsBelow(rows, parts, parentEntity, p)
  {
    var under := SearchUnder(rows, parentEntity);
    if |parts| > 1 {
      forall id ensures !MatchesKey(rows, parts, under, id) && !HangsBelow(rows, parts, parentEntity, id) {
        MatchesKeyByTop(rows, parts, under, id);
        if |parts| > 2 {
          MatchesKeyByTop(rows, parts[1..], under, id);
        }
      }
    }
  }
}
