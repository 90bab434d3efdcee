/**
 * The four tables of the access-control database (users, access_keys, doors,
 * permissions): their rows, the defaults the columns declare, the UNIQUE and
 * FOREIGN KEY constraints as one consistency predicate, the checks a
 * single-row INSERT must pass, and the ON DELETE actions.
 */
module Schema {

  datatype Option<T> = None | Some(value: T)

  /** Column defaults declared by the CREATE TABLE statements. */
  const DefaultUserRole: string := "operator"
  const DefaultKeyStatus: string := "active"
  const DefaultPermissionRole: string := "operator"

  /** doors.status is ENUM('locked', 'unlocked') DEFAULT 'locked'. */
  datatype LockState = Locked | Unlocked
  const DefaultDoorState: LockState := Locked

  /** A row of `users`; `id` is the key of the map that holds the row. */
  datatype User = User(name: string, role: string)

  /** A row of `access_keys`; label and user_id are nullable columns. */
  datatype AccessKey = AccessKey(keyUid: string, keyLabel: Option<string>, userId: Option<int>, status: string)

  /** A row of `doors`. */
  datatype Door = Door(name: string, location: string, deviceIp: string, status: LockState)

  /** A row of `permissions`; role is a nullable column. */
  datatype Permission = Permission(keyId: int, doorId: int, role: Option<string>)

  // ---------------------------------------------------------------------
  // Constraints
  // ---------------------------------------------------------------------

  /** The column's default case-insensitive collation folds ASCII capitals
      to lower case before it compares. */
  function FoldChar(c: char): (r: char)
    ensures 'A' <= c <= 'Z' ==> r as int == c as int + 32
    ensures !('A' <= c <= 'Z') ==> r == c
  {
    if 'A' <= c <= 'Z' then (c as int + 32) as char else c
  }

  function FoldCase(s: string): (r: string)
    ensures |r| == |s|
    ensures forall i | 0 <= i < |s| :: r[i] == FoldChar(s[i])
  {
    seq(|s|, i requires 0 <= i < |s| => FoldChar(s[i]))
  }

  /** Two VARCHAR values are equal under the collation: `=` in a WHERE
      clause and the UNIQUE index compare this way. */
  predicate SameText(a: string, b: string) {
    FoldCase(a) == FoldCase(b)
  }

  /** Two values collate equal exactly when they have the same length and
      agree position by position once ASCII case is folded. */
  lemma SameTextPointwise(a: string, b: string)
    ensures SameText(a, b) <==> |a| == |b| && forall i | 0 <= i < |a| :: FoldChar(a[i]) == FoldChar(b[i])
  {
    if |a| == |b| && forall i | 0 <= i < |a| :: FoldChar(a[i]) == FoldChar(b[i]) {
      assert forall i | 0 <= i < |a| :: FoldCase(a)[i] == FoldCase(b)[i];
    }
  }

  /** A key_uid that differs from a stored one only in the case of its
      letters is a duplicate entry. */
  lemma CaseVariantUidInUse(keys: map<int, AccessKey>, id: int)
    requires id in keys && keys[id].keyUid == "A1B2C3D4"
    ensures UidInUse(keys, "a1b2c3d4")
  {
    SameTextPointwise(keys[id].keyUid, "a1b2c3d4");
  }

  /** Some stored key_uid collates equal to uid. */
  predicate UidInUse(keys: map<int, AccessKey>, uid: string) {
    exists id | id in keys :: SameText(keys[id].keyUid, uid)
  }

  /** access_keys.key_uid is UNIQUE under the column's collation. */
  ghost predicate UniqueKeyUids(keys: map<int, AccessKey>) {
    forall i, j | i in keys && j in keys && SameText(keys[i].keyUid, keys[j].keyUid) :: i == j
  }

  /** access_keys.user_id REFERENCES users(id) (NULL allowed). */
  ghost predicate OwnersExist(users: map<int, User>, keys: map<int, AccessKey>) {
    forall id | id in keys && keys[id].userId.Some? :: keys[id].userId.value in users
  }

  predicate HasPair(ps: seq<Permission>, keyId: int, doorId: int) {
    exists i | 0 <= i < |ps| :: ps[i].keyId == keyId && ps[i].doorId == doorId
  }

  /** permissions.key_id and permissions.door_id are NOT NULL foreign keys. */
  ghost predicate RowsReference(keys: map<int, AccessKey>, doors: map<int, Door>, ps: seq<Permission>) {
    forall i | 0 <= i < |ps| :: ps[i].keyId in keys && ps[i].doorId in doors
  }

  /** UNIQUE (key_id, door_id): no two rows carry the same pair. */
  ghost predicate UniquePairs(ps: seq<Permission>) {
    forall i, j | 0 <= i < j < |ps| :: ps[i].keyId != ps[j].keyId || ps[i].doorId != ps[j].doorId
  }

  /** Every constraint the schema declares. */
  ghost predicate Consistent(users: map<int, User>, keys: map<int, AccessKey>,
                             doors: map<int, Door>, ps: seq<Permission>) {
    && UniqueKeyUids(keys)
    && OwnersExist(users, keys)
    && RowsReference(keys, doors, ps)
    && UniquePairs(ps)
  }

  // ---------------------------------------------------------------------
  // Single-row INSERT checks
  // ---------------------------------------------------------------------

  /** An INSERT INTO access_keys succeeds exactly when it breaks neither the
      UNIQUE key_uid nor the foreign key on user_id. */
  predicate KeyInsertable(users: map<int, User>, keys: map<int, AccessKey>, key: AccessKey) {
    !UidInUse(keys, key.keyUid) && (key.userId.Some? ==> key.userId.value in users)
  }

  /** An INSERT INTO permissions succeeds exactly when both foreign keys hold
      and the (key_id, door_id) pair is new. */
  predicate PermissionInsertable(keys: map<int, AccessKey>, doors: map<int, Door>,
                                 ps: seq<Permission>, p: Permission) {
    p.keyId in keys && p.doorId in doors && !HasPair(ps, p.keyId, p.doorId)
  }

  lemma InsertKeyConsistent(users: map<int, User>, keys: map<int, AccessKey>,
                            doors: map<int, Door>, ps: seq<Permission>, id: int, key: AccessKey)
    requires Consistent(users, keys, doors, ps)
    requires id !in keys
    ensures KeyInsertable(users, keys, key) <==> Consistent(users, keys[id := key], doors, ps)
  {
    var keys' := keys[id := key];
    if !KeyInsertable(users, keys, key) {
      if UidInUse(keys, key.keyUid) {
        var j :| j in keys && SameText(keys[j].keyUid, key.keyUid);
        assert SameText(keys'[j].keyUid, keys'[id].keyUid) && j != id;
      } else {
        assert keys'[id].userId.Some? && keys'[id].userId.value !in users;
      }
    }
  }

  lemma InsertPermissionConsistent(users: map<int, User>, keys: map<int, AccessKey>,
                                   doors: map<int, Door>, ps: seq<Permission>, p: Permission)
    requires Consistent(users, keys, doors, ps)
    ensures PermissionInsertable(keys, doors, ps, p) <==> Consistent(users, keys, doors, ps + [p])
  {
    var ps' := ps + [p];
    assert ps'[|ps|] == p;
    if !PermissionInsertable(keys, doors, ps, p) && p.keyId in keys && p.doorId in doors {
      var i :| 0 <= i < |ps| && ps[i].keyId == p.keyId && ps[i].doorId == p.doorId;
      assert ps'[i] == ps[i];
    }
    if PermissionInsertable(keys, doors, ps, p) {
      forall i, j | 0 <= i < j < |ps'|
        ensures ps'[i].keyId != ps'[j].keyId || ps'[i].doorId != ps'[j].doorId
      {
        if j == |ps| {
          assert ps'[i] == ps[i];
        } else {
          assert ps'[i] == ps[i] && ps'[j] == ps[j];
        }
      }
    }
  }

  // ---------------------------------------------------------------------
  // Lookups and ON DELETE actions
  // ---------------------------------------------------------------------

  /** The door ids a key's permission rows grant. */
  ghost function DoorsOf(ps: seq<Permission>, keyId: int): set<int> {
    set p | p in ps && p.keyId == keyId :: p.doorId
  }

  /** The rows of one key, in table order. */
  function WithKey(ps: seq<Permission>, keyId: int): (r: seq<Permission>)
    ensures forall p :: p in r <==> p in ps && p.keyId == keyId
  {
    if ps == [] then []
    else
      assert ps == [ps[0]] + ps[1..];
      (if ps[0].keyId == keyId then [ps[0]] else []) + WithKey(ps[1..], keyId)
  }

  /** ON DELETE CASCADE from access_keys: the rows left when a key goes. */
  function WithoutKey(ps: seq<Permission>, keyId: int): (r: seq<Permission>)
    ensures forall p :: p in r <==> p in ps && p.keyId != keyId
  {
    if ps == [] then []
    else
      assert ps == [ps[0]] + ps[1..];
      (if ps[0].keyId == keyId then [] else [ps[0]]) + WithoutKey(ps[1..], keyId)
  }

  /** ON DELETE CASCADE from doors: the rows left when a door goes. */
  function WithoutDoor(ps: seq<Permission>, doorId: int): (r: seq<Permission>)
    ensures forall p :: p in r <==> p in ps && p.doorId != doorId
  {
    if ps == [] then []
    else
      assert ps == [ps[0]] + ps[1..];
      (if ps[0].doorId == doorId then [] else [ps[0]]) + WithoutDoor(ps[1..], doorId)
  }

  /** Deleting a key removes exactly the rows that reference it: every other
      row survives as often as it occurred, and no row of the key survives. */
  lemma {:induction false} WithoutKeyExactly(ps: seq<Permission>, keyId: int, p: Permission)
    ensures multiset(WithoutKey(ps, keyId))[p] == if p.keyId == keyId then 0 else multiset(ps)[p]
  {
    if ps != [] {
      assert ps == [ps[0]] + ps[1..];
      WithoutKeyExactly(ps[1..], keyId, p);
    }
  }

  /** Deleting a door removes exactly the rows that reference it. */
  lemma {:induction false} WithoutDoorExactly(ps: seq<Permission>, doorId: int, p: Permission)
    ensures multiset(WithoutDoor(ps, doorId))[p] == if p.doorId == doorId then 0 else multiset(ps)[p]
  {
    if ps != [] {
      assert ps == [ps[0]] + ps[1..];
      WithoutDoorExactly(ps[1..], doorId, p);
    }
  }

  /** ON DELETE SET NULL from users: the keys a user owned stay, unowned. */
  function ClearOwner(keys: map<int, AccessKey>, userId: int): (r: map<int, AccessKey>)
    ensures r.Keys == keys.Keys
    ensures forall id | id in r :: r[id].userId != Some(userId)
    ensures forall id | id in r && keys[id].userId != Some(userId) :: r[id] == keys[id]
    ensures forall id | id in r && keys[id].userId == Some(userId) :: r[id] == keys[id].(userId := None)
  {
    map id | id in keys :: if keys[id].userId == Some(userId) then keys[id].(userId := None) else keys[id]
  }

  // ---------------------------------------------------------------------
  // Table-order facts used by the cascades and by set_permissions
  // ---------------------------------------------------------------------

  lemma {:induction false} UniquePairsCons(p: Permission, ps: seq<Permission>)
    ensures UniquePairs([p] + ps) <==> UniquePairs(ps) && !HasPair(ps, p.keyId, p.doorId)
  {
    var s := [p] + ps;
    assert forall i | 0 <= i < |ps| :: s[i + 1] == ps[i];
    if UniquePairs(ps) && !HasPair(ps, p.keyId, p.doorId) {
      forall i, j | 0 <= i < j < |s| ensures s[i].keyId != s[j].keyId || s[i].doorId != s[j].doorId {
        if i == 0 {
          assert s[j] == ps[j - 1];
        }
      }
    }
    if UniquePairs(s) {
      forall i | 0 <= i < |ps| ensures ps[i].keyId != p.keyId || ps[i].doorId != p.doorId {
        assert s[0] == p && s[i + 1] == ps[i];
      }
    }
  }

  lemma HasPairIn(ps: seq<Permission>, keyId: int, doorId: int)
    ensures HasPair(ps, keyId, doorId) <==> exists p | p in ps :: p.keyId == keyId && p.doorId == doorId
  {
    if exists p | p in ps :: p.keyId == keyId && p.doorId == doorId {
      var p :| p in ps && p.keyId == keyId && p.doorId == doorId;
      var i :| 0 <= i < |ps| && ps[i] == p;
    }
  }

  lemma {:induction false} WithoutKeyUnique(ps: seq<Permission>, keyId: int)
    requires UniquePairs(ps)
    ensures UniquePairs(WithoutKey(ps, keyId))
  {
    if ps != [] {
      assert ps == [ps[0]] + ps[1..];
      UniquePairsCons(ps[0], ps[1..]);
      WithoutKeyUnique(ps[1..], keyId);
      if ps[0].keyId != keyId {
        var rest := WithoutKey(ps[1..], keyId);
        HasPairIn(ps[1..], ps[0].keyId, ps[0].doorId);
        HasPairIn(rest, ps[0].keyId, ps[0].doorId);
        UniquePairsCons(ps[0], rest);
      }
    }
  }

  lemma {:induction false} WithoutDoorUnique(ps: seq<Permission>, doorId: int)
    requires UniquePairs(ps)
    ensures UniquePairs(WithoutDoor(ps, doorId))
  {
    if ps != [] {
      assert ps == [ps[0]] + ps[1..];
      UniquePairsCons(ps[0], ps[1..]);
      WithoutDoorUnique(ps[1..], doorId);
      if ps[0].doorId != doorId {
        var rest := WithoutDoor(ps[1..], doorId);
        HasPairIn(ps[1..], ps[0].keyId, ps[0].doorId);
        HasPairIn(rest, ps[0].keyId, ps[0].doorId);
        UniquePairsCons(ps[0], rest);
      }
    }
  }

  /** Deleting a key keeps the schema's constraints. */
  lemma DeleteKeyConsistent(users: map<int, User>, keys: map<int, AccessKey>,
                            doors: map<int, Door>, ps: seq<Permission>, keyId: int)
    requires Consistent(users, keys, doors, ps)
    ensures Consistent(users, keys - {keyId}, doors, WithoutKey(ps, keyId))
  {
    WithoutKeyUnique(ps, keyId);
    var r := WithoutKey(ps, keyId);
    forall i | 0 <= i < |r| ensures r[i].keyId in keys - {keyId} && r[i].doorId in doors {
      assert r[i] in ps;
    }
  }

  /** Deleting a door keeps the schema's constraints. */
  lemma DeleteDoorConsistent(users: map<int, User>, keys: map<int, AccessKey>,
                             doors: map<int, Door>, ps: seq<Permission>, doorId: int)
    requires Consistent(users, keys, doors, ps)
    ensures Consistent(users, keys, doors - {doorId}, WithoutDoor(ps, doorId))
  {
    WithoutDoorUnique(ps, doorId);
    var r := WithoutDoor(ps, doorId);
    forall i | 0 <= i < |r| ensures r[i].keyId in keys && r[i].doorId in doors - {doorId} {
      assert r[i] in ps;
    }
  }

  /** Deleting a user keeps the schema's constraints. */
  lemma DeleteUserConsistent(users: map<int, User>, keys: map<int, AccessKey>,
                             doors: map<int, Door>, ps: seq<Permission>, userId: int)
    requires Consistent(users, keys, doors, ps)
    ensures Consistent(users - {userId}, ClearOwner(keys, userId), doors, ps)
  {
  }
}
