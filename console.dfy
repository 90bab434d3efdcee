/**
 * The permissions page of the console: the door selection it keeps for the
 * chosen key, how a checkbox click toggles one door in it, how the
 * selection is loaded from the backend's rows, and the request Save sends.
 */
module Console {
  import opened Schema
  import opened Backend

  /** `list.filter((id) => id !== doorId)`: keeps every other id, in order. */
  function Remove(s: seq<int>, doorId: int): (r: seq<int>)
    ensures forall y :: y in r <==> y in s && y != doorId
    ensures |r| <= |s|
  {
    if s == [] then []
    else
      assert s == [s[0]] + s[1..];
      (if s[0] == doorId then [] else [s[0]]) + Remove(s[1..], doorId)
  }

  /** handleDoorToggle: drop a selected door, or append an unselected one. */
  function Toggle(prev: seq<int>, doorId: int): (r: seq<int>)
    ensures forall y :: y in r <==> if y == doorId then doorId !in prev else y in prev
  {
    if doorId in prev then Remove(prev, doorId) else prev + [doorId]
  }

  /** fetchPermissions: `data.map((p) => p.door_id)`. */
  function SelectedDoors(rows: seq<PermissionView>): (r: seq<int>)
    ensures |r| == |rows|
    ensures forall i | 0 <= i < |rows| :: r[i] == rows[i].doorId
  {
    if rows == [] then [] else [rows[0].doorId] + SelectedDoors(rows[1..])
  }

  /** What handleSave does: report an error, or send the selection. */
  datatype SaveAction = ReportError(message: string) | PostPermissions(keyId: string, doors: seq<int>)

  function Save(selectedKey: string, selectedDoors: seq<int>): (r: SaveAction)
    ensures r.ReportError? <==> selectedKey == ""
    ensures r.PostPermissions? ==> r.keyId == selectedKey && r.doors == selectedDoors
  {
    if selectedKey == "" then ReportError("Please select a key")
    else PostPermissions(selectedKey, selectedDoors)
  }

  // ---------------------------------------------------------------------
  // Properties of Remove
  // ---------------------------------------------------------------------

  /** Remove drops every occurrence of the id and keeps every other id as
      often as it occurred. */
  lemma {:induction false} RemoveCounts(s: seq<int>, doorId: int, y: int)
    ensures multiset(Remove(s, doorId))[y] == if y == doorId then 0 else multiset(s)[y]
  {
    if s != [] {
      assert s == [s[0]] + s[1..];
      RemoveCounts(s[1..], doorId, y);
    }
  }

  lemma {:induction false} RemoveConcat(a: seq<int>, b: seq<int>, doorId: int)
    ensures Remove(a + b, doorId) == Remove(a, doorId) + Remove(b, doorId)
  {
    if a == [] {
      assert a + b == b;
    } else {
      var ab := a + b;
      assert ab[0] == a[0] && ab[1..] == a[1..] + b;
      RemoveConcat(a[1..], b, doorId);
    }
  }

  lemma {:induction false} RemoveAbsent(s: seq<int>, doorId: int)
    requires doorId !in s
    ensures Remove(s, doorId) == s
  {
    if s != [] {
      assert s == [s[0]] + s[1..];
      RemoveAbsent(s[1..], doorId);
    }
  }

  lemma {:induction false} RemoveNoDuplicates(s: seq<int>, doorId: int)
    requires NoDuplicates(s)
    ensures NoDuplicates(Remove(s, doorId))
  {
    if s != [] {
      var tail := s[1..];
      assert NoDuplicates(tail) by {
        forall i, j | 0 <= i < j < |tail| ensures tail[i] != tail[j] {
          assert tail[i] == s[i + 1] && tail[j] == s[j + 1];
        }
      }
      RemoveNoDuplicates(tail, doorId);
      var rest := Remove(tail, doorId);
      if s[0] != doorId {
        var r := [s[0]] + rest;
        assert s[0] !in tail by {
          forall i | 0 <= i < |tail| ensures tail[i] != s[0] {
            assert tail[i] == s[i + 1];
          }
        }
        forall i, j | 0 <= i < j < |r| ensures r[i] != r[j] {
          assert r[j] == rest[j - 1] && r[j] in rest;
          if i > 0 {
            assert r[i] == rest[i - 1];
          }
        }
      }
    }
  }

  // ---------------------------------------------------------------------
  // Properties of Toggle
  // ---------------------------------------------------------------------

  /** Toggling a selected id removes every occurrence of it and keeps every
      other id as often as it occurred. */
  lemma ToggleRemovesEveryOccurrence(prev: seq<int>, doorId: int, y: int)
    requires doorId in prev
    ensures doorId !in Toggle(prev, doorId)
    ensures multiset(Toggle(prev, doorId))[y] == if y == doorId then 0 else multiset(prev)[y]
  {
    RemoveCounts(prev, doorId, y);
  }

  /** Toggling an unselected id appends it as the last element, after the
      whole previous selection. */
  lemma ToggleAppendsAbsent(prev: seq<int>, doorId: int)
    requires doorId !in prev
    ensures |Toggle(prev, doorId)| == |prev| + 1
    ensures Toggle(prev, doorId)[..|prev|] == prev
    ensures Toggle(prev, doorId)[|prev|] == doorId
  {
  }

  /** Apart from the toggled id, the selection is the same sequence as
      before: the other ids keep their relative order. */
  lemma ToggleKeepsOthersInOrder(prev: seq<int>, doorId: int)
    ensures Remove(Toggle(prev, doorId), doorId) == Remove(prev, doorId)
  {
    if doorId in prev {
      RemoveAbsent(Remove(prev, doorId), doorId);
    } else {
      RemoveConcat(prev, [doorId], doorId);
      assert Remove([doorId], doorId) == [] by {
        assert [doorId][1..] == [];
      }
    }
  }

  /** Toggling the same unselected id twice restores the selection. */
  lemma ToggleTwiceRestores(prev: seq<int>, doorId: int)
    requires doorId !in prev
    ensures Toggle(Toggle(prev, doorId), doorId) == prev
  {
    ToggleKeepsOthersInOrder(prev, doorId);
    RemoveAbsent(prev, doorId);
  }

  /** A selection without duplicates stays without duplicates. */
  lemma ToggleNoDuplicates(prev: seq<int>, doorId: int)
    requires NoDuplicates(prev)
    ensures NoDuplicates(Toggle(prev, doorId))
  {
    if doorId in prev {
      RemoveNoDuplicates(prev, doorId);
    } else {
      var r := prev + [doorId];
      forall i, j | 0 <= i < j < |r| ensures r[i] != r[j] {
        if j == |prev| {
          assert r[i] == prev[i];
        } else {
          assert r[i] == prev[i] && r[j] == prev[j];
        }
      }
    }
  }

  // ---------------------------------------------------------------------
  // The selection against the backend
  // ---------------------------------------------------------------------

  /** Loading a key's permissions selects each granted door exactly once. */
  lemma LoadedSelection(users: map<int, User>, keys: map<int, AccessKey>, doors: map<int, Door>,
                        ps: seq<Permission>, keyId: int)
    requires Consistent(users, keys, doors, ps)
    ensures var sel := SelectedDoors(KeyPermissionRows(ps, doors, keyId));
      && NoDuplicates(sel)
      && (set d | d in sel) == DoorsOf(ps, keyId)
  {
    var rows := KeyPermissionRows(ps, doors, keyId);
    var sel := SelectedDoors(rows);
    KeyPermissionRowsCover(ps, keys, doors, keyId);
    KeyPermissionRowsDistinct(ps, doors, keyId);
    forall d | d in sel ensures d in DoorsOf(ps, keyId) {
      var i :| 0 <= i < |sel| && sel[i] == d;
      assert rows[i] in rows;
    }
    forall d | d in DoorsOf(ps, keyId) ensures d in sel {
      var v :| v in rows && v.doorId == d;
      var i :| 0 <= i < |rows| && rows[i] == v;
      assert sel[i] == d;
    }
  }

  /** A door the key is granted exists, and so does the key. */
  lemma GrantedDoorExists(keys: map<int, AccessKey>, doors: map<int, Door>, ps: seq<Permission>, keyId: int, d: int)
    requires RowsReference(keys, doors, ps)
    requires d in DoorsOf(ps, keyId)
    ensures d in doors && keyId in keys
  {
    var p :| p in ps && p.keyId == keyId && p.doorId == d;
    var j :| 0 <= j < |ps| && ps[j] == p;
  }

  /** Saving the loaded selection unchanged succeeds and grants the key
      the same doors as before. */
  lemma SaveLoadedSelectionKeepsDoors(users: map<int, User>, keys: map<int, AccessKey>, doors: map<int, Door>,
                                      ps: seq<Permission>, keyId: int, role: Option<string>)
    requires Consistent(users, keys, doors, ps)
    ensures ReplaceAllowed(keys, doors, keyId, SelectedDoors(KeyPermissionRows(ps, doors, keyId)))
    ensures DoorsOf(ReplaceKeyDoors(ps, keyId, SelectedDoors(KeyPermissionRows(ps, doors, keyId)), role), keyId)
            == DoorsOf(ps, keyId)
  {
    var sel := SelectedDoors(KeyPermissionRows(ps, doors, keyId));
    LoadedSelection(users, keys, doors, ps, keyId);
    forall i | 0 <= i < |sel| ensures sel[i] in doors && keyId in keys {
      assert sel[i] in (set d | d in sel);
      GrantedDoorExists(keys, doors, ps, keyId, sel[i]);
    }
    ReplaceGrantsListedDoors(ps, keyId, sel, role);
  }

  /** Toggling a door that exists, for a key that exists, keeps a
      selection that set_permissions accepts. */
  lemma ToggleKeepsSaveable(keys: map<int, AccessKey>, doors: map<int, Door>, keyId: int,
                            sel: seq<int>, doorId: int)
    requires ReplaceAllowed(keys, doors, keyId, sel)
    requires keyId in keys && doorId in doors
    ensures ReplaceAllowed(keys, doors, keyId, Toggle(sel, doorId))
  {
    ToggleNoDuplicates(sel, doorId);
    var r := Toggle(sel, doorId);
    forall i | 0 <= i < |r| ensures r[i] in doors {
      assert r[i] in r;
    }
  }
}
