/**
 * The REST handlers of the backend as methods of one in-memory store that
 * holds the four tables. Each method takes the request's JSON members as
 * Fields, returns the handler's HTTP status, and changes only the tables
 * the handler's SQL statements touch.
 */
module Backend {
  import opened Schema

  // ---------------------------------------------------------------------
  // Request bodies and responses
  // ---------------------------------------------------------------------

  const OK: int := 200
  const CREATED: int := 201
  const BAD_REQUEST: int := 400
  const NOT_FOUND: int := 404
  const SERVER_ERROR: int := 500

  /** One member of a JSON request body: missing, `null`, or a value. */
  datatype Field<T> = Absent | Null | Given(value: T)

  /** `data.get(name)`: a missing member and `null` both read as None. */
  function Get<T>(f: Field<T>): Option<T> {
    match f
    case Given(v) => Some(v)
    case _ => None
  }

  /** `data.get(name, default)`: only a missing member takes the default. */
  function GetOr<T>(f: Field<T>, default: T): Option<T> {
    match f
    case Absent => Some(default)
    case Null => None
    case Given(v) => Some(v)
  }

  /** Python truthiness of a str that may be None. */
  predicate Truthy(s: Option<string>) {
    s.Some? && s.value != ""
  }

  /** Python truthiness of an int that may be None. */
  predicate TruthyInt(n: Option<int>) {
    n.Some? && n.value != 0
  }

  /** SQL COALESCE(given, stored). */
  function Coalesce<T>(given: Option<T>, stored: T): T {
    if given.Some? then given.value else stored
  }

  /** The outbound request `POST http://{deviceIp}/{command}` to a controller. */
  datatype DeviceRequest = DeviceRequest(deviceIp: string, command: string)

  /** `SELECT device_ip FROM doors WHERE device_ip = %s` finds a row: the
      comparison is the column's case-insensitive collation. */
  predicate DeviceKnown(doors: map<int, Door>, deviceIp: string) {
    exists id | id in doors :: SameText(doors[id].deviceIp, deviceIp)
  }

  // ---------------------------------------------------------------------
  // get_permissions_by_key: permissions JOIN doors WHERE key_id = k
  // ---------------------------------------------------------------------

  /** One result row: p.door_id, d.name AS doorName, d.location, p.role. */
  datatype PermissionView = PermissionView(doorId: int, doorName: string, location: string, role: Option<string>)

  function ViewOf(p: Permission, d: Door): PermissionView {
    PermissionView(p.doorId, d.name, d.location, p.role)
  }

  /** The rows the SELECT returns, in permission-table order. */
  function KeyPermissionRows(ps: seq<Permission>, doors: map<int, Door>, keyId: int): (r: seq<PermissionView>)
    ensures forall v :: v in r <==>
      exists p | p in ps && p.keyId == keyId && p.doorId in doors :: v == ViewOf(p, doors[p.doorId])
    ensures |r| <= |ps|
  {
    if ps == [] then []
    else
      assert ps == [ps[0]] + ps[1..];
      var rest := KeyPermissionRows(ps[1..], doors, keyId);
      if ps[0].keyId == keyId && ps[0].doorId in doors
      then [ViewOf(ps[0], doors[ps[0].doorId])] + rest
      else rest
  }

  /** On a consistent database the rows name exactly the doors the key's
      permission rows grant. */
  lemma KeyPermissionRowsCover(ps: seq<Permission>, keys: map<int, AccessKey>, doors: map<int, Door>, keyId: int)
    requires RowsReference(keys, doors, ps)
    ensures var r := KeyPermissionRows(ps, doors, keyId);
      && (forall v | v in r :: v.doorId in DoorsOf(ps, keyId))
      && (forall d | d in DoorsOf(ps, keyId) :: exists v | v in r :: v.doorId == d)
  {
    var r := KeyPermissionRows(ps, doors, keyId);
    forall d | d in DoorsOf(ps, keyId) ensures exists v | v in r :: v.doorId == d {
      var p :| p in ps && p.keyId == keyId && p.doorId == d;
      var i :| 0 <= i < |ps| && ps[i] == p;
      assert ViewOf(p, doors[p.doorId]) in r;
    }
  }

  predicate DistinctDoors(rows: seq<PermissionView>) {
    forall i, j | 0 <= i < j < |rows| :: rows[i].doorId != rows[j].doorId
  }

  /** Under UNIQUE (key_id, door_id) no door appears twice in the rows. */
  lemma {:induction false} KeyPermissionRowsDistinct(ps: seq<Permission>, doors: map<int, Door>, keyId: int)
    requires UniquePairs(ps)
    ensures DistinctDoors(KeyPermissionRows(ps, doors, keyId))
  {
    if ps != [] {
      assert ps == [ps[0]] + ps[1..];
      var tail := ps[1..];
      UniquePairsCons(ps[0], tail);
      KeyPermissionRowsDistinct(tail, doors, keyId);
      var rest := KeyPermissionRows(tail, doors, keyId);
      if ps[0].keyId == keyId && ps[0].doorId in doors {
        var r := [ViewOf(ps[0], doors[ps[0].doorId])] + rest;
        assert KeyPermissionRows(ps, doors, keyId) == r;
        assert r[0].doorId == ps[0].doorId;
        HasPairIn(tail, ps[0].keyId, ps[0].doorId);
        forall j | 0 <= j < |rest| ensures rest[j].doorId != ps[0].doorId {
          assert rest[j] in rest;
        }
        forall i, j | 0 <= i < j < |r| ensures r[i].doorId != r[j].doorId {
          if i == 0 {
            assert r[j] == rest[j - 1];
            assert rest[j - 1].doorId != ps[0].doorId;
          } else {
            assert r[i] == rest[i - 1] && r[j] == rest[j - 1];
            assert rest[i - 1].doorId != rest[j - 1].doorId;
          }
        }
      } else {
        assert KeyPermissionRows(ps, doors, keyId) == rest;
      }
    }
  }

  // ---------------------------------------------------------------------
  // set_permissions: delete the key's rows, insert one row per listed door
  // ---------------------------------------------------------------------

  predicate NoDuplicates(ds: seq<int>) {
    forall i, j | 0 <= i < j < |ds| :: ds[i] != ds[j]
  }

  /** The rows the insert loop adds, one per listed door, in list order. */
  function NewRows(keyId: int, ds: seq<int>, role: Option<string>): (r: seq<Permission>)
    ensures |r| == |ds|
    ensures forall i | 0 <= i < |ds| :: r[i] == Permission(keyId, ds[i], role)
    ensures forall p :: p in r <==> p.keyId == keyId && p.doorId in ds && p.role == role
  {
    if ds == [] then []
    else NewRows(keyId, ds[..|ds| - 1], role) + [Permission(keyId, ds[|ds| - 1], role)]
  }

  /** Every INSERT of the loop passes the schema's checks: the key exists
      (needed only if some row is inserted), every door exists, and no door
      is listed twice. */
  predicate ReplaceAllowed(keys: map<int, AccessKey>, doors: map<int, Door>, keyId: int, ds: seq<int>) {
    && (ds != [] ==> keyId in keys)
    && (forall i | 0 <= i < |ds| :: ds[i] in doors)
    && NoDuplicates(ds)
  }

  /** The permissions table after a committed set_permissions. */
  function ReplaceKeyDoors(ps: seq<Permission>, keyId: int, ds: seq<int>, role: Option<string>): (r: seq<Permission>)
    ensures forall p :: p in r <==>
      || (p in ps && p.keyId != keyId)
      || (p.keyId == keyId && p.doorId in ds && p.role == role)
  {
    WithoutKey(ps, keyId) + NewRows(keyId, ds, role)
  }

  lemma {:induction false} WithKeyConcat(a: seq<Permission>, b: seq<Permission>, keyId: int)
    ensures WithKey(a + b, keyId) == WithKey(a, keyId) + WithKey(b, keyId)
  {
    if a != [] {
      var ab := a + b;
      assert ab != [] && ab[0] == a[0] && ab[1..] == a[1..] + b;
      WithKeyConcat(a[1..], b, keyId);
      var head := if a[0].keyId == keyId then [a[0]] else [];
      assert WithKey(a, keyId) == head + WithKey(a[1..], keyId);
      assert WithKey(ab, keyId) == head + WithKey(ab[1..], keyId);
      assert WithKey(ab[1..], keyId) == WithKey(a[1..], keyId) + WithKey(b, keyId);
      assert head + (WithKey(a[1..], keyId) + WithKey(b, keyId)) == (head + WithKey(a[1..], keyId)) + WithKey(b, keyId);
    } else {
      assert a + b == b;
    }
  }

  lemma {:induction false} WithKeyWithoutKey(ps: seq<Permission>, keyId: int, other: int)
    ensures WithKey(WithoutKey(ps, keyId), other) == if other == keyId then [] else WithKey(ps, other)
  {
    if ps != [] {
      WithKeyWithoutKey(ps[1..], keyId, other);
      var head := if ps[0].keyId == keyId then [] else [ps[0]];
      WithKeyConcat(head, WithoutKey(ps[1..], keyId), other);
    }
  }

  lemma {:induction false} WithKeyNewRows(keyId: int, ds: seq<int>, role: Option<string>, other: int)
    ensures WithKey(NewRows(keyId, ds, role), other) == if other == keyId then NewRows(keyId, ds, role) else []
  {
    if ds != [] {
      var front := ds[..|ds| - 1];
      WithKeyNewRows(keyId, front, role, other);
      WithKeyConcat(NewRows(keyId, front, role), [Permission(keyId, ds[|ds| - 1], role)], other);
    }
  }

  /** After the replace the key's rows are exactly one per listed door, in
      list order and carrying the request's role; the key's door set is the
      set of listed doors. */
  lemma ReplaceGrantsListedDoors(ps: seq<Permission>, keyId: int, ds: seq<int>, role: Option<string>)
    ensures WithKey(ReplaceKeyDoors(ps, keyId, ds, role), keyId) == NewRows(keyId, ds, role)
    ensures DoorsOf(ReplaceKeyDoors(ps, keyId, ds, role), keyId) == set d | d in ds
  {
    var r := ReplaceKeyDoors(ps, keyId, ds, role);
    WithKeyConcat(WithoutKey(ps, keyId), NewRows(keyId, ds, role), keyId);
    WithKeyWithoutKey(ps, keyId, keyId);
    WithKeyNewRows(keyId, ds, role, keyId);
    var rows := NewRows(keyId, ds, role);
    forall d | d in ds ensures d in DoorsOf(r, keyId) {
      var i :| 0 <= i < |ds| && ds[i] == d;
      assert rows[i] in WithKey(r, keyId);
    }
    forall d | d in DoorsOf(r, keyId) ensures d in ds {
      var p :| p in r && p.keyId == keyId && p.doorId == d;
      assert p in rows;
      var i :| 0 <= i < |rows| && rows[i] == p;
    }
  }

  /** The replace leaves every other key's rows exactly as they were. */
  lemma ReplaceKeepsOtherKeys(ps: seq<Permission>, keyId: int, ds: seq<int>, role: Option<string>, other: int)
    requires other != keyId
    ensures WithKey(ReplaceKeyDoors(ps, keyId, ds, role), other) == WithKey(ps, other)
  {
    WithKeyConcat(WithoutKey(ps, keyId), NewRows(keyId, ds, role), other);
    WithKeyWithoutKey(ps, keyId, other);
    WithKeyNewRows(keyId, ds, role, other);
  }

  /** The working table after the DELETE and the inserts for `done`: it
      holds the pair (keyId, d) exactly when d is among the doors already
      inserted, so the next INSERT breaks UNIQUE only for a repeated door. */
  lemma WorkingTablePairs(ps: seq<Permission>, keyId: int, done: seq<int>, role: Option<string>, d: int)
    ensures HasPair(ReplaceKeyDoors(ps, keyId, done, role), keyId, d) <==> d in done
  {
    var r := ReplaceKeyDoors(ps, keyId, done, role);
    var rows := NewRows(keyId, done, role);
    HasPairIn(r, keyId, d);
    if d in done {
      var i :| 0 <= i < |done| && done[i] == d;
      assert rows[i] in r;
    }
    if HasPair(r, keyId, d) {
      var p :| p in r && p.keyId == keyId && p.doorId == d;
      assert p !in WithoutKey(ps, keyId);
      assert p in rows;
      var i :| 0 <= i < |rows| && rows[i] == p;
      assert done[i] == d;
    }
  }

  /** The loop's guard, one door at a time: the list extended by d can be
      inserted iff the list can and the next INSERT passes. */
  lemma ReplaceAllowedSnoc(keys: map<int, AccessKey>, doors: map<int, Door>, keyId: int, done: seq<int>, d: int)
    ensures ReplaceAllowed(keys, doors, keyId, done + [d]) <==>
      ReplaceAllowed(keys, doors, keyId, done) && keyId in keys && d in doors && d !in done
  {
    var ds := done + [d];
    assert forall i | 0 <= i < |done| :: ds[i] == done[i];
    assert ds[|done|] == d;
  }

  /** Every prefix of a list whose inserts all pass is such a list too. */
  lemma ReplaceAllowedPrefix(keys: map<int, AccessKey>, doors: map<int, Door>, keyId: int, ds: seq<int>, n: nat)
    requires n <= |ds|
    requires ReplaceAllowed(keys, doors, keyId, ds)
    ensures ReplaceAllowed(keys, doors, keyId, ds[..n])
  {
    assert forall i | 0 <= i < n :: ds[..n][i] == ds[i];
  }

  /** One INSERT of the loop: appending the row for d to the working table is
      the replace for the extended list, and keeps the constraints. */
  lemma ReplaceStep(users: map<int, User>, keys: map<int, AccessKey>, doors: map<int, Door>,
                    ps: seq<Permission>, keyId: int, done: seq<int>, d: int, role: Option<string>)
    requires Consistent(users, keys, doors, ReplaceKeyDoors(ps, keyId, done, role))
    requires keyId in keys && d in doors && d !in done
    ensures ReplaceKeyDoors(ps, keyId, done + [d], role) == ReplaceKeyDoors(ps, keyId, done, role) + [Permission(keyId, d, role)]
    ensures Consistent(users, keys, doors, ReplaceKeyDoors(ps, keyId, done + [d], role))
  {
    assert (done + [d])[..|done|] == done;
    WorkingTablePairs(ps, keyId, done, role, d);
    InsertPermissionConsistent(users, keys, doors, ReplaceKeyDoors(ps, keyId, done, role), Permission(keyId, d, role));
  }

  /** A committed replace keeps the schema's constraints. */
  lemma {:induction false} ReplaceConsistent(users: map<int, User>, keys: map<int, AccessKey>, doors: map<int, Door>,
                                             ps: seq<Permission>, keyId: int, ds: seq<int>, role: Option<string>)
    requires Consistent(users, keys, doors, ps)
    requires ReplaceAllowed(keys, doors, keyId, ds)
    ensures Consistent(users, keys, doors, ReplaceKeyDoors(ps, keyId, ds, role))
  {
    if ds == [] {
      DeleteKeyConsistent(users, keys, doors, ps, keyId);
      var w := WithoutKey(ps, keyId);
      assert ReplaceKeyDoors(ps, keyId, ds, role) == w;
      forall j | 0 <= j < |w| ensures w[j].keyId in keys && w[j].doorId in doors {
        assert w[j] in ps;
      }
    } else {
      var done, d := ds[..|ds| - 1], ds[|ds| - 1];
      assert ds == done + [d];
      ReplaceAllowedSnoc(keys, doors, keyId, done, d);
      ReplaceConsistent(users, keys, doors, ps, keyId, done, role);
      ReplaceStep(users, keys, doors, ps, keyId, done, d, role);
    }
  }

  // ---------------------------------------------------------------------
  // The store
  // ---------------------------------------------------------------------

  class AccessStore {
    var users: map<int, User>
    var keys: map<int, AccessKey>
    var doors: map<int, Door>
    /** permissions rows in AUTO_INCREMENT id order */
    var perms: seq<Permission>
    /** the next AUTO_INCREMENT value of users, access_keys and doors */
    var nextUserId: int
    var nextKeyId: int
    var nextDoorId: int

    ghost predicate Valid()
      reads this
    {
      && Consistent(users, keys, doors, perms)
      && (forall id | id in users :: 1 <= id < nextUserId)
      && (forall id | id in keys :: 1 <= id < nextKeyId)
      && (forall id | id in doors :: 1 <= id < nextDoorId)
      && 1 <= nextUserId && 1 <= nextKeyId && 1 <= nextDoorId
    }

    constructor ()
      ensures Valid()
      ensures users == map[] && keys == map[] && doors == map[] && perms == []
    {
      users, keys, doors, perms := map[], map[], map[], [];
      nextUserId, nextKeyId, nextDoorId := 1, 1, 1;
    }

    /** POST /api/users */
    method CreateUser(name: Field<string>, role: Field<string>) returns (status: int)
      requires Valid()
      modifies this`users, this`nextUserId
      ensures Valid()
      ensures !Truthy(Get(name)) ==> status == BAD_REQUEST && users == old(users)
      ensures Truthy(Get(name)) && role.Null? ==> status == SERVER_ERROR && users == old(users)
      ensures Truthy(Get(name)) && !role.Null? ==>
        && status == CREATED
        && old(nextUserId) !in old(users)
        && users == old(users)[old(nextUserId) := User(name.value, GetOr(role, DefaultUserRole).value)]
    {
      var n := Get(name);
      var r := GetOr(role, DefaultUserRole);
      if !Truthy(n) {
        return BAD_REQUEST;
      }
      if r.None? {
        // NULL into the NOT NULL column raises; Flask answers 500, nothing is committed
        return SERVER_ERROR;
      }
      users := users[nextUserId := User(n.value, r.value)];
      nextUserId := nextUserId + 1;
      status := CREATED;
    }

    /** DELETE /api/users/<id>: ON DELETE SET NULL on the user's keys. */
    method DeleteUser(userId: int) returns (status: int)
      requires Valid()
      modifies this`users, this`keys
      ensures Valid()
      ensures status == OK
      ensures users == old(users) - {userId}
      ensures keys == ClearOwner(old(keys), userId)
    {
      DeleteUserConsistent(users, keys, doors, perms, userId);
      users := users - {userId};
      keys := ClearOwner(keys, userId);
      status := OK;
    }

    /** POST /api/keys */
    method CreateKey(keyUid: Field<string>, userId: Field<int>, keyLabel: Field<string>) returns (status: int)
      requires Valid()
      modifies this`keys, this`nextKeyId
      ensures Valid()
      ensures status == CREATED || status == BAD_REQUEST
      ensures status == CREATED <==>
        && Truthy(Get(keyUid)) && TruthyInt(Get(userId))
        && KeyInsertable(users, old(keys), AccessKey(keyUid.value, GetOr(keyLabel, ""), Get(userId), DefaultKeyStatus))
      ensures status == CREATED ==>
        && old(nextKeyId) !in old(keys)
        && keys == old(keys)[old(nextKeyId) := AccessKey(keyUid.value, GetOr(keyLabel, ""), Get(userId), DefaultKeyStatus)]
      ensures status == BAD_REQUEST ==> keys == old(keys)
    {
      var uid := Get(keyUid);
      var owner := Get(userId);
      var lbl := GetOr(keyLabel, "");
      if !Truthy(uid) || !TruthyInt(owner) {
        return BAD_REQUEST;
      }
      var key := AccessKey(uid.value, lbl, owner, DefaultKeyStatus);
      if !KeyInsertable(users, keys, key) {
        // duplicate key_uid or unknown user_id: the INSERT raises, caught as 400
        return BAD_REQUEST;
      }
      InsertKeyConsistent(users, keys, doors, perms, nextKeyId, key);
      keys := keys[nextKeyId := key];
      nextKeyId := nextKeyId + 1;
      status := CREATED;
    }

    /** PUT /api/keys/<id>: sets label and user_id, nothing else. */
    method UpdateKey(keyId: int, keyLabel: Field<string>, userId: Field<int>) returns (status: int)
      requires Valid()
      modifies this`keys
      ensures Valid()
      ensures keys.Keys == old(keys).Keys
      ensures forall id | id in keys :: keys[id].keyUid == old(keys)[id].keyUid && keys[id].status == old(keys)[id].status
      ensures forall id | id in keys && id != keyId :: keys[id] == old(keys)[id]
      ensures keyId !in old(keys) ==> status == OK && keys == old(keys)
      ensures keyId in old(keys) && Get(userId).Some? && Get(userId).value !in users ==>
        status == SERVER_ERROR && keys == old(keys)
      ensures keyId in old(keys) && (Get(userId).Some? ==> Get(userId).value in users) ==>
        && status == OK
        && keys[keyId].keyLabel == GetOr(keyLabel, "")
        && keys[keyId].userId == Get(userId)
    {
      var lbl := GetOr(keyLabel, "");
      var owner := Get(userId);
      if keyId !in keys {
        // UPDATE ... WHERE id = keyId matches no row
        return OK;
      }
      if owner.Some? && owner.value !in users {
        // the foreign key on user_id makes the UPDATE raise; Flask answers 500
        return SERVER_ERROR;
      }
      keys := keys[keyId := keys[keyId].(keyLabel := lbl, userId := owner)];
      status := OK;
    }

    /** DELETE /api/keys/<id>: ON DELETE CASCADE on the key's permissions. */
    method DeleteKey(keyId: int) returns (status: int)
      requires Valid()
      modifies this`keys, this`perms
      ensures Valid()
      ensures status == OK
      ensures keys == old(keys) - {keyId}
      ensures perms == WithoutKey(old(perms), keyId)
    {
      DeleteKeyConsistent(users, keys, doors, perms, keyId);
      keys := keys - {keyId};
      perms := WithoutKey(perms, keyId);
      status := OK;
    }

    /** POST /api/doors: a new door starts 'locked'. */
    method CreateDoor(name: Field<string>, location: Field<string>, deviceIp: Field<string>) returns (status: int)
      requires Valid()
      modifies this`doors, this`nextDoorId
      ensures Valid()
      ensures var given := Truthy(Get(name)) && Truthy(Get(location)) && Truthy(Get(deviceIp));
        && (!given ==> status == BAD_REQUEST && doors == old(doors))
        && (given ==>
              && status == CREATED
              && old(nextDoorId) !in old(doors)
              && doors == old(doors)[old(nextDoorId) := Door(name.value, location.value, deviceIp.value, DefaultDoorState)])
    {
      var n, l, ip := Get(name), Get(location), Get(deviceIp);
      if !(Truthy(n) && Truthy(l) && Truthy(ip)) {
        return BAD_REQUEST;
      }
      doors := doors[nextDoorId := Door(n.value, l.value, ip.value, DefaultDoorState)];
      nextDoorId := nextDoorId + 1;
      status := CREATED;
    }

    /** PUT /api/doors/<id>: each non-null member replaces its column
        (COALESCE); at least one member must be truthy. The answer is 404
        unless the UPDATE changes the row, since `cur.rowcount` counts
        changed rows. */
    method UpdateDoor(doorId: int, name: Field<string>, location: Field<string>, deviceIp: Field<string>)
      returns (status: int)
      requires Valid()
      modifies this`doors
      ensures Valid()
      ensures doors.Keys == old(doors).Keys
      ensures forall id | id in doors && id != doorId :: doors[id] == old(doors)[id]
      ensures !(Truthy(Get(name)) || Truthy(Get(location)) || Truthy(Get(deviceIp))) ==>
        status == BAD_REQUEST && doors == old(doors)
      ensures (Truthy(Get(name)) || Truthy(Get(location)) || Truthy(Get(deviceIp))) && doorId !in old(doors) ==>
        status == NOT_FOUND && doors == old(doors)
      ensures (Truthy(Get(name)) || Truthy(Get(location)) || Truthy(Get(deviceIp))) && doorId in old(doors) ==>
        && doors[doorId].name == (if name.Given? then name.value else old(doors)[doorId].name)
        && doors[doorId].location == (if location.Given? then location.value else old(doors)[doorId].location)
        && doors[doorId].deviceIp == (if deviceIp.Given? then deviceIp.value else old(doors)[doorId].deviceIp)
        && doors[doorId].status == old(doors)[doorId].status
        && (status == OK || status == NOT_FOUND)
        && (status == OK <==> doors[doorId] != old(doors)[doorId])
    {
      var n, l, ip := Get(name), Get(location), Get(deviceIp);
      if !(Truthy(n) || Truthy(l) || Truthy(ip)) {
        return BAD_REQUEST;
      }
      if doorId !in doors {
        return NOT_FOUND;
      }
      var d := doors[doorId];
      var updated := d.(name := Coalesce(n, d.name), location := Coalesce(l, d.location),
                        deviceIp := Coalesce(ip, d.deviceIp));
      if updated == d {
        // the UPDATE matches the row but changes nothing: rowcount is 0
        return NOT_FOUND;
      }
      doors := doors[doorId := updated];
      status := OK;
    }

    /** DELETE /api/doors/<id>: ON DELETE CASCADE on the door's permissions. */
    method DeleteDoor(doorId: int) returns (status: int)
      requires Valid()
      modifies this`doors, this`perms
      ensures Valid()
      ensures doorId !in old(doors) ==> status == NOT_FOUND && doors == old(doors) && perms == old(perms)
      ensures doorId in old(doors) ==>
        status == OK && doors == old(doors) - {doorId} && perms == WithoutDoor(old(perms), doorId)
    {
      if doorId !in doors {
        return NOT_FOUND;
      }
      DeleteDoorConsistent(users, keys, doors, perms, doorId);
      doors := doors - {doorId};
      perms := WithoutDoor(perms, doorId);
      status := OK;
    }

    /** POST /api/device/<device_ip>/command, up to and including the call
        to the controller; whether the controller answers 2xx is the
        parameter `deviceAccepts`. No table changes. */
    method SendCommand(deviceIp: string, cmd: Field<string>, deviceAccepts: bool)
      returns (status: int, sent: Option<DeviceRequest>)
      ensures !Truthy(Get(cmd)) ==> status == BAD_REQUEST && sent == None
      ensures Truthy(Get(cmd)) && !DeviceKnown(doors, deviceIp) ==> status == NOT_FOUND && sent == None
      ensures Truthy(Get(cmd)) && DeviceKnown(doors, deviceIp) ==>
        && sent == Some(DeviceRequest(deviceIp, cmd.value))
        && status == (if deviceAccepts then OK else SERVER_ERROR)
    {
      var command := Get(cmd);
      if !Truthy(command) {
        return BAD_REQUEST, None;
      }
      if !DeviceKnown(doors, deviceIp) {
        return NOT_FOUND, None;
      }
      sent := Some(DeviceRequest(deviceIp, command.value));
      status := if deviceAccepts then OK else SERVER_ERROR;
    }

    /** GET /api/permissions/<key_id> */
    method GetPermissionsByKey(keyId: int) returns (status: int, rows: seq<PermissionView>)
      requires Valid()
      ensures status == OK
      ensures rows == KeyPermissionRows(perms, doors, keyId)
      ensures forall v | v in rows :: v.doorId in DoorsOf(perms, keyId)
      ensures forall d | d in DoorsOf(perms, keyId) :: exists v | v in rows :: v.doorId == d
      ensures DistinctDoors(rows)
    {
      KeyPermissionRowsCover(perms, keys, doors, keyId);
      KeyPermissionRowsDistinct(perms, doors, keyId);
      rows := KeyPermissionRows(perms, doors, keyId);
      status := OK;
    }

    /** POST /api/permissions: replaces the key's whole door set inside one
        transaction; any failing INSERT rolls the transaction back. */
    method SetPermissions(keyId: Field<int>, doorIds: Field<seq<int>>, role: Field<string>) returns (status: int)
      requires Valid()
      modifies this`perms
      ensures Valid()
      ensures status == OK || status == BAD_REQUEST || status == SERVER_ERROR
      ensures status == BAD_REQUEST <==> !TruthyInt(Get(keyId))
      ensures status == OK <==>
        && TruthyInt(Get(keyId)) && !doorIds.Null?
        && ReplaceAllowed(keys, doors, keyId.value, GetOr(doorIds, []).value)
      ensures status == OK ==>
        perms == ReplaceKeyDoors(old(perms), keyId.value, GetOr(doorIds, []).value, GetOr(role, DefaultPermissionRole))
      ensures status != OK ==> perms == old(perms)
    {
      var key := Get(keyId);
      var ds := GetOr(doorIds, []);
      var r := GetOr(role, DefaultPermissionRole);
      if !TruthyInt(key) {
        return BAD_REQUEST;
      }
      var k := key.value;
      // inside the transaction: DELETE FROM permissions WHERE key_id = k
      var rows := WithoutKey(perms, k);
      if ds.None? {
        // iterating over None raises; the DELETE is rolled back
        return SERVER_ERROR;
      }
      var list := ds.value;
      var i := 0;
      var failed := false;
      DeleteKeyConsistent(users, keys, doors, perms, k);
      assert rows == ReplaceKeyDoors(perms, k, list[..0], r);
      while i < |list| && !failed
        invariant 0 <= i <= |list|
        invariant perms == old(perms)
        invariant !failed ==> rows == ReplaceKeyDoors(perms, k, list[..i], r)
        invariant !failed ==> Consistent(users, keys, doors, rows)
        invariant !failed ==> ReplaceAllowed(keys, doors, k, list[..i])
        invariant failed ==> !ReplaceAllowed(keys, doors, k, list)
        decreases |list| - i, if failed then 0 else 1
      {
        var p := Permission(k, list[i], r);
        assert list[..i + 1] == list[..i] + [list[i]];
        WorkingTablePairs(perms, k, list[..i], r, list[i]);
        ReplaceAllowedSnoc(keys, doors, k, list[..i], list[i]);
        if PermissionInsertable(keys, doors, rows, p) {
          ReplaceStep(users, keys, doors, perms, k, list[..i], list[i], r);
          rows := rows + [p];
          i := i + 1;
        } else {
          if ReplaceAllowed(keys, doors, k, list) {
            ReplaceAllowedPrefix(keys, doors, k, list, i + 1);
          }
          failed := true;
        }
      }
      if failed {
        // conn.rollback(): the table is as it was before the DELETE
        return SERVER_ERROR;
      }
      assert list[..i] == list;
      perms := rows;
      status := OK;
    }
  }
}
