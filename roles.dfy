/**
 * Roles and their comma-separated permission strings: substring-based
 * membership, append-if-absent, delete-then-clean-up, and the split / trim /
 * filter parsing the role service exposes.
 */
module Roles {

  import opened Wrappers
  import opened JavaString

  /** `hasPermission(p)` on a permissions value: false on null or "", else substring containment. */
  predicate HasPermissionIn(perms: Option<string>, p: string)
  {
    perms.Some? && perms.value != [] && Contains(perms.value, p)
  }

  /** Membership is substring occurrence, not token equality. */
  lemma HasPermissionMeans(perms: Option<string>, p: string)
    ensures HasPermissionIn(perms, p) <==>
              perms.Some? && perms.value != [] && exists i :: OccursAt(perms.value, p, i)
  {
    if HasPermissionIn(perms, p) {
      ContainsIndex(perms.value, p);
    }
    if perms.Some? && perms.value != [] && exists i :: OccursAt(perms.value, p, i) {
      var i :| OccursAt(perms.value, p, i);
      ContainsAt(perms.value, p, i);
    }
  }

  /** The permissions value `addPermission(p)` leaves behind. */
  function WithPermission(perms: Option<string>, p: string): (r: string)
    ensures p != [] ==> HasPermissionIn(Some(r), p)
    ensures HasPermissionIn(perms, p) ==> r == perms.value
    ensures perms.None? || perms.value == [] ==> r == p
  {
    var base := perms.GetOr([]);
    if HasPermissionIn(Some(base), p) then base
    else if base == [] then p
    else
      var r := base + [','] + p;
      ContainsAt(r, p, |base| + 1);
      r
  }

  /** Adding a permission twice is the same as adding it once. */
  lemma AddPermissionIdempotent(perms: Option<string>, p: string)
    ensures WithPermission(Some(WithPermission(perms, p)), p) == WithPermission(perms, p)
  {
    if p == [] {
      var r := WithPermission(perms, p);
      if r != [] {
        assert StartsWith(r, p);
      }
    }
  }

  /** Adding a permission never loses one that was already held. */
  lemma AddPermissionKeepsOthers(perms: Option<string>, p: string, q: string)
    requires HasPermissionIn(perms, q)
    ensures HasPermissionIn(Some(WithPermission(perms, p)), q)
  {
    var base := perms.value;
    var r := WithPermission(perms, p);
    if r != base {
      assert r[0..|base|] == base;
      ContainsInSlice(r, 0, |base|, q);
    }
  }

  /**
   * The permissions value `removePermission(p)` computes once `p` is contained:
   * every occurrence of `p` deleted, each ",," collapsed to ",", trimmed, and
   * one trailing comma dropped.
   */
  function PermissionsWithout(s: string, p: string): (r: string)
    ensures |r| <= |s|
  {
    var deleted := Replace(s, p, []);
    var collapsed := Replace(deleted, ",,", ",");
    var trimmed := Trim(collapsed);
    if EndsWith(trimmed, ",") then trimmed[..|trimmed| - 1] else trimmed
  }

  /** Proof step for `RemoveCanLeavePermission` and `InnerOccurrence`: `Replace` replaces an occurrence at the front. */
  lemma ReplaceAtFront(t: string, s: string, r: string)
    requires t != []
    ensures Replace(t + s, t, r) == r + Replace(s, t, r)
  {
    assert (t + s)[..|t|] == t;
    assert (t + s)[|t|..] == s;
  }

  /** Proof step for `RemoveCanLeavePermission` and `InnerOccurrence`: `Replace` keeps a front that does not match. */
  lemma ReplaceSkips(s: string, t: string, r: string)
    requires t != [] && |s| >= |t| && s[..|t|] != t
    ensures Replace(s, t, r) == [s[0]] + Replace(s[1..], t, r)
  {
  }

  /** Without the first character of `t`, `s` holds no occurrence to replace. */
  lemma {:induction false} ReplaceAbsent(s: string, t: string, r: string)
    requires t != [] && t[0] !in s
    ensures Replace(s, t, r) == s
  {
    if |s| >= |t| {
      assert s[..|t|][0] != t[0];
      ReplaceAbsent(s[1..], t, r);
      assert [s[0]] + s[1..] == s;
    }
  }

  /** The clean-up steps of a removal leave a comma-free value with visible ends as it is. */
  lemma CleanUpKeeps(d: string)
    requires d != [] && ',' !in d && !TrimsAway(d[0]) && !TrimsAway(d[|d| - 1])
    ensures var c := Replace(d, ",,", ","); c == d && Trim(c) == d && !EndsWith(Trim(c), ",")
  {
    ReplaceAbsent(d, ",,", ",");
    assert d[|d| - 1..] != "," by {
      assert d[|d| - 1..][0] == d[|d| - 1];
    }
  }

  /** When the deletion pass leaves a clean value, the clean-up keeps it. */
  lemma RemovalLeaves(s: string, p: string, d: string)
    requires Replace(s, p, []) == d
    requires d != [] && ',' !in d && !TrimsAway(d[0]) && !TrimsAway(d[|d| - 1])
    ensures PermissionsWithout(s, p) == d
  {
    CleanUpKeeps(d);
  }

  /**
   * Removal is substring-based: when `p` is the head of a longer permission
   * (as "READ" is of "READ_ALL"), removing `p` leaves the mutilated tail.
   */
  lemma RemoveCutsIntoLongerPermission(p: string, rest: string)
    requires p != [] && rest != [] && p[0] !in rest && ',' !in rest
    requires !TrimsAway(rest[0]) && !TrimsAway(rest[|rest| - 1])
    ensures Contains(p + rest, p)
    ensures PermissionsWithout(p + rest, p) == rest
  {
    ReplaceAtFront(p, rest, []);
    ReplaceAbsent(rest, p, []);
    RemovalLeaves(p + rest, p, rest);
    assert (p + rest)[0..|p|] == p;
    ContainsAt(p + rest, p, 0);
  }

  /**
   * Removal deletes the occurrences of a single pass, so `p` can survive it:
   * removing "AB" from "AABB" leaves "AB".
   */
  lemma RemoveCanLeavePermission(a: char, b: char)
    requires a != b && a != ',' && b != ',' && !TrimsAway(a) && !TrimsAway(b)
    ensures HasPermissionIn(Some([a, a, b, b]), [a, b])
    ensures PermissionsWithout([a, a, b, b], [a, b]) == [a, b]
    ensures HasPermissionIn(Some(PermissionsWithout([a, a, b, b], [a, b])), [a, b])
  {
    var s, p, tail := [a, a, b, b], [a, b], [b];
    assert s[..2] != p by { assert s[..2][1] == a; }
    ReplaceSkips(s, p, []);
    assert s[1..] == p + tail;
    ReplaceAtFront(p, tail, []);
    ReplaceAbsent(tail, p, []);
    RemovalLeaves(s, p, p);
    assert StartsWith(p, p);
    InnerOccurrence(a, b);
  }

  lemma InnerOccurrence(a: char, b: char)
    ensures Contains([a, a, b, b], [a, b])
  {
    var s: string := [a, a, b, b];
    assert s[1..3] == [a, b];
    ContainsAt(s, [a, b], 1);
  }

  /** A permission token: non-empty, comma-free, and with nothing `trim()` would strip. */
  predicate IsToken(t: string)
  {
    t != [] && ',' !in t && Trim(t) == t
  }

  /** `Trim` of a piece without `c` has no `c` either. */
  lemma TrimKeepsOut(x: string, c: char)
    requires c !in x
    ensures c !in Trim(x)
  {
    TrimIsSlice(x);
    forall k | 0 <= k < |Trim(x)|
      ensures Trim(x)[k] != c
    {
      assert Trim(x)[k] == x[TrimOffset(x) + k];
    }
  }

  /** Trims every comma-free piece and keeps the non-empty results, in order. */
  function TokensOf(ps: seq<string>): (r: seq<string>)
    requires forall i :: 0 <= i < |ps| ==> ',' !in ps[i]
    ensures |r| <= |ps|
    ensures forall j :: 0 <= j < |r| ==> IsToken(r[j])
  {
    if ps == [] then []
    else
      var t := Trim(ps[0]);
      TrimKeepsOut(ps[0], ',');
      if t == [] then TokensOf(ps[1..]) else [t] + TokensOf(ps[1..])
  }

  /** `getRolePermissions`: nothing for a null or empty value, else the trimmed non-empty comma-separated pieces. */
  function PermissionList(perms: Option<string>): (r: seq<string>)
    ensures perms.None? || perms.value == [] ==> r == []
    ensures forall j :: 0 <= j < |r| ==> IsToken(r[j])
  {
    if perms.None? || perms.value == [] then [] else TokensOf(Split(perms.value, ','))
  }

  lemma {:induction false} TokensOfTokens(ts: seq<string>)
    requires forall i :: 0 <= i < |ts| ==> ',' !in ts[i]
    requires forall i :: 0 <= i < |ts| ==> IsToken(ts[i])
    ensures TokensOf(ts) == ts
  {
    if ts != [] {
      TokensOfTokens(ts[1..]);
    }
  }

  /** Parsing a comma-joined list of tokens gives the tokens back, in order. */
  lemma PermissionListOfJoin(ts: seq<string>)
    requires forall i :: 0 <= i < |ts| ==> IsToken(ts[i])
    ensures PermissionList(Some(Join(ts, ','))) == ts
  {
    if ts != [] {
      SplitOfJoin(ts);
      TokensOfTokens(ts);
    }
  }

  lemma SplitOfJoin(ts: seq<string>)
    requires ts != []
    requires forall i :: 0 <= i < |ts| ==> IsToken(ts[i])
    ensures Join(ts, ',') != [] && Split(Join(ts, ','), ',') == ts
  {
    var s := Join(ts, ',');
    assert |s| >= |ts[0]|;
    assert forall i :: 0 <= i < |ts| ==> ',' !in ts[i];
    PiecesOfJoin(ts, ',');
    assert ts[|ts| - 1] != [];
  }

  /**
   * A role row. `users` stands for the ids of the users assigned to the role
   * (only whether it is empty matters here).
   */
  class Role {
    var name: string
    var description: Option<string>
    var permissions: Option<string>
    var isDefault: Option<bool>
    var isSystem: Option<bool>
    var users: set<int>

    /** `new Role()` with the field initialisers, then `setName(name)`. */
    constructor (name: string)
      ensures this.name == name && description.None? && permissions.None?
      ensures isDefault == Some(false) && isSystem == Some(false) && users == {}
    {
      this.name := name;
      description := None;
      permissions := None;
      isDefault := Some(false);
      isSystem := Some(false);
      users := {};
    }

    predicate HasPermission(p: string)
      reads this
    {
      HasPermissionIn(permissions, p)
    }

    /** Appends `p` unless it is already contained; afterwards `p` is held. */
    method AddPermission(p: string)
      modifies this`permissions
      ensures permissions == Some(WithPermission(old(permissions), p))
      ensures p != [] ==> HasPermission(p)
      ensures forall q :: old(HasPermission(q)) ==> HasPermission(q)
    {
      ghost var before := permissions;
      if permissions.None? {
        permissions := Some([]);
      }
      if !HasPermission(p) {
        permissions := Some(if permissions.value == [] then p else permissions.value + [','] + p);
      }
      forall q | HasPermissionIn(before, q)
        ensures HasPermission(q)
      {
        AddPermissionKeepsOthers(before, p, q);
      }
    }

    /** Deletes `p` and cleans up, only when the value contains it; never lengthens the value. */
    method RemovePermission(p: string)
      modifies this`permissions
      ensures old(permissions).None? || !Contains(old(permissions).value, p) ==> permissions == old(permissions)
      ensures old(permissions).Some? && Contains(old(permissions).value, p) ==>
                permissions == Some(PermissionsWithout(old(permissions).value, p))
      ensures permissions.Some? == old(permissions).Some?
      ensures permissions.Some? ==> |permissions.value| <= |old(permissions).value|
    {
      if permissions.Some? && Contains(permissions.value, p) {
        var s := permissions.value;
        s := Replace(s, p, []);
        s := Replace(s, ",,", ",");
        s := Trim(s);
        if EndsWith(s, ",") {
          s := s[..|s| - 1];
        }
        permissions := Some(s);
      }
    }
  }
}
