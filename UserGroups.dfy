/** UserGroupService: membership of users in user groups, recorded on both
    sides (user.userGroupIds and group.userIds) in two independently stored
    collections. The user store belongs to the injected user service; whether
    that service accepts an update is an input (`userUpdate`), since its code
    is not part of this model. */
module UserGroups {
  import opened Common

  datatype Permission = Permission(permissionScope: string, permissionType: string)

  datatype User = User(id: Id, email: string, userGroupIds: seq<Id>)

  datatype UserGroup = UserGroup(id: Id, name: string, userIds: seq<Id>, permissions: seq<Permission>)

  /** The group as shown to clients: the group's fields and the users its ids
      resolve to (null where the user service finds no user). */
  datatype UserGroupDto = UserGroupDto(id: Id, name: string, userIds: seq<Id>,
                                       permissions: seq<Permission>, users: seq<Option<User>>)

  /** What a ServiceResult of this service carries. */
  datatype Payload =
    | UserObject(user: User)
    | GroupObject(group: UserGroup)
    | GroupDto(dto: UserGroupDto)
    | GroupDtos(dtos: seq<UserGroupDto>)

  const GroupCreatedMessage := "UserGroup created successfully."
  const GroupUpdatedMessage := "UserGroup updated successfully."
  const UserAssignedMessage := "User assigned successfully."
  const UserUnassignedMessage := "User unassigned successfully."
  const AlreadyAssignedMessage := "User already assigned to User Group."
  const AlreadyUnassignedMessage := "User already unassigned from User Group."
  const GroupsRetrievedMessage := "User Groups retrieved successfully."

  /** The state assign accepts: the user asks for the group, the group does not list the user yet. */
  predicate CanAssign(user: User, group: UserGroup) {
    group.id in user.userGroupIds && user.id !in group.userIds
  }

  /** The state unassign accepts: the user no longer asks for the group, the group still lists the user. */
  predicate CanUnassign(user: User, group: UserGroup) {
    group.id !in user.userGroupIds && user.id in group.userIds
  }

  // ---------------------------------------------------------------------
  // The two stores, in the order their getAll lists them.

  ghost predicate UniqueUserIds(users: seq<User>) {
    forall i, j :: 0 <= i < |users| && 0 <= j < |users| && users[i].id == users[j].id ==> i == j
  }

  ghost predicate UniqueGroupIds(groups: seq<UserGroup>) {
    forall i, j :: 0 <= i < |groups| && 0 <= j < |groups| && groups[i].id == groups[j].id ==> i == j
  }

  /** The user service's getById: the stored user with that id, or null. */
  function FindUser(users: seq<User>, id: Id): (r: Option<User>)
    ensures r.Some? ==> r.value in users && r.value.id == id
    ensures r.None? <==> forall u :: u in users ==> u.id != id
  {
    if users == [] then None
    else if users[0].id == id then Some(users[0])
    else FindUser(users[1..], id)
  }

  /** The stored user group with that id, or null. */
  function FindGroup(groups: seq<UserGroup>, id: Id): (r: Option<UserGroup>)
    ensures r.Some? ==> r.value in groups && r.value.id == id
    ensures r.None? <==> forall g :: g in groups ==> g.id != id
  {
    if groups == [] then None
    else if groups[0].id == id then Some(groups[0])
    else FindGroup(groups[1..], id)
  }

  /** A write of a user: the stored user with the same id is replaced. */
  function PutUser(users: seq<User>, u: User): (r: seq<User>)
    ensures |r| == |users|
    ensures forall k :: 0 <= k < |users| ==> r[k].id == users[k].id
  {
    if users == [] then []
    else if users[0].id == u.id then [u] + users[1..]
    else [users[0]] + PutUser(users[1..], u)
  }

  /** A write of a group: the stored group with the same id is replaced. */
  function PutGroup(groups: seq<UserGroup>, g: UserGroup): (r: seq<UserGroup>)
    ensures |r| == |groups|
    ensures forall k :: 0 <= k < |groups| ==> r[k].id == groups[k].id
  {
    if groups == [] then []
    else if groups[0].id == g.id then [g] + groups[1..]
    else [groups[0]] + PutGroup(groups[1..], g)
  }

  /** A delete of a group: the stored group with that id is removed. */
  function DropGroup(groups: seq<UserGroup>, id: Id): (r: seq<UserGroup>)
    ensures forall g :: g in r ==> g in groups
    ensures forall g :: g in groups && g.id != id ==> g in r
  {
    if groups == [] then []
    else if groups[0].id == id then groups[1..]
    else [groups[0]] + DropGroup(groups[1..], id)
  }

  /** When ids are unique, writing the user stored at position i replaces exactly that position. */
  lemma {:induction false} PutUserAt(users: seq<User>, i: nat, u: User)
    requires UniqueUserIds(users)
    requires i < |users| && users[i].id == u.id
    ensures PutUser(users, u) == users[i := u]
  {
    if i == 0 {
    } else {
      assert users[0].id != u.id by { assert users[0].id == users[i].id ==> 0 == i; }
      assert UniqueUserIds(users[1..]) by {
        forall a, b | 0 <= a < |users| - 1 && 0 <= b < |users| - 1 && users[1..][a].id == users[1..][b].id
          ensures a == b
        {
          assert users[a + 1].id == users[b + 1].id;
        }
      }
      PutUserAt(users[1..], i - 1, u);
      assert users[1..][i - 1 := u] == users[i := u][1..];
    }
  }

  /** When ids are unique, writing the group stored at position i replaces exactly that position. */
  lemma {:induction false} PutGroupAt(groups: seq<UserGroup>, i: nat, g: UserGroup)
    requires UniqueGroupIds(groups)
    requires i < |groups| && groups[i].id == g.id
    ensures PutGroup(groups, g) == groups[i := g]
  {
    if i != 0 {
      UniqueGroupTail(groups);
      PutGroupAt(groups[1..], i - 1, g);
      assert groups[1..][i - 1 := g] == groups[i := g][1..];
    }
  }

  /** An accepted assign enables the matching unassign: once the user drops the
      group id and the group lists the user, the unassign guard holds. */
  lemma AssignEnablesUnassign(user: User, group: UserGroup)
    requires CanAssign(user, group)
    ensures !CanUnassign(user, group)
    ensures CanUnassign(StripUser(user, group.id), group.(userIds := group.userIds + [user.id]))
  {
  }

  /** A user write keeps ids unique. */
  lemma PutUserUnique(users: seq<User>, u: User)
    requires UniqueUserIds(users)
    ensures UniqueUserIds(PutUser(users, u))
  {
    var r := PutUser(users, u);
    assert forall k :: 0 <= k < |r| ==> r[k].id == users[k].id;
  }

  /** A group write keeps ids unique. */
  lemma PutGroupUnique(groups: seq<UserGroup>, g: UserGroup)
    requires UniqueGroupIds(groups)
    ensures UniqueGroupIds(PutGroup(groups, g))
  {
    var r := PutGroup(groups, g);
    assert forall k :: 0 <= k < |r| ==> r[k].id == groups[k].id;
  }

  /** Once a stored group is rewritten, a lookup by its id yields the rewritten group. */
  lemma {:induction false} FindGroupAfterPut(groups: seq<UserGroup>, g: UserGroup)
    requires FindGroup(groups, g.id).Some?
    ensures FindGroup(PutGroup(groups, g), g.id) == Some(g)
  {
    if groups[0].id != g.id {
      FindGroupAfterPut(groups[1..], g);
    }
  }

  /** Once a stored user is rewritten, a lookup by its id yields the rewritten user. */
  lemma {:induction false} FindUserAfterPut(users: seq<User>, u: User)
    requires FindUser(users, u.id).Some?
    ensures FindUser(PutUser(users, u), u.id) == Some(u)
  {
    if users[0].id != u.id {
      FindUserAfterPut(users[1..], u);
    }
  }

  /** The groups after the first of a duplicate-free store are duplicate-free and lack the first's id. */
  lemma UniqueGroupTail(groups: seq<UserGroup>)
    requires UniqueGroupIds(groups) && groups != []
    ensures UniqueGroupIds(groups[1..])
    ensures forall g :: g in groups[1..] ==> g.id != groups[0].id
  {
    var tail := groups[1..];
    forall a, b | 0 <= a < |tail| && 0 <= b < |tail| && tail[a].id == tail[b].id ensures a == b {
      assert groups[a + 1] == tail[a] && groups[b + 1] == tail[b];
    }
    forall g | g in tail ensures g.id != groups[0].id {
      var j :| 0 <= j < |tail| && tail[j] == g;
      assert groups[j + 1] == g;
    }
  }

  /** A group whose id the duplicate-free rest lacks can be put in front of it. */
  lemma UniqueGroupCons(g: UserGroup, rest: seq<UserGroup>)
    requires UniqueGroupIds(rest)
    requires forall h :: h in rest ==> h.id != g.id
    ensures UniqueGroupIds([g] + rest)
  {
    var r := [g] + rest;
    forall a, b | 0 <= a < |r| && 0 <= b < |r| && r[a].id == r[b].id ensures a == b {
      if a > 0 { assert r[a] == rest[a - 1]; }
      if b > 0 { assert r[b] == rest[b - 1]; }
    }
  }

  /** Deleting a group from a store without duplicate ids leaves no group with that id. */
  lemma {:induction false} DropGroupRemoves(groups: seq<UserGroup>, id: Id)
    requires UniqueGroupIds(groups)
    ensures FindGroup(DropGroup(groups, id), id).None?
    ensures UniqueGroupIds(DropGroup(groups, id))
  {
    if groups != [] {
      UniqueGroupTail(groups);
      if groups[0].id != id {
        DropGroupRemoves(groups[1..], id);
        var rest := DropGroup(groups[1..], id);
        assert DropGroup(groups, id) == [groups[0]] + rest;
        UniqueGroupCons(groups[0], rest);
      }
    }
  }

  // ---------------------------------------------------------------------
  // Editing the id lists.

  /** The list with every occurrence of x removed, the rest in order (the
      iterator loop with iter.remove()). */
  function RemoveAll(ids: seq<Id>, x: Id): (r: seq<Id>)
    ensures x !in r
    ensures forall y :: y in r <==> y in ids && y != x
  {
    if ids == [] then []
    else (if ids[0] == x then [] else [ids[0]]) + RemoveAll(ids[1..], x)
  }

  /** Removing x distributes over concatenation: the other ids keep their relative order. */
  lemma {:induction false} RemoveAllConcat(a: seq<Id>, b: seq<Id>, x: Id)
    ensures RemoveAll(a + b, x) == RemoveAll(a, x) + RemoveAll(b, x)
  {
    if a == [] {
      assert a + b == b;
    } else {
      assert (a + b)[0] == a[0];
      assert (a + b)[1..] == a[1..] + b;
      RemoveAllConcat(a[1..], b, x);
    }
  }

  /** A list without x is left as it is. */
  lemma {:induction false} RemoveAllAbsent(ids: seq<Id>, x: Id)
    requires x !in ids
    ensures RemoveAll(ids, x) == ids
  {
    if ids != [] {
      RemoveAllAbsent(ids[1..], x);
    }
  }

  /** List.remove(Object): only the first occurrence of x is removed. */
  function RemoveFirstId(ids: seq<Id>, x: Id): (r: seq<Id>)
    ensures x in ids ==> |r| == |ids| - 1 && multiset(r) == multiset(ids) - multiset{x}
    ensures x !in ids ==> r == ids
  {
    if ids == [] then []
    else
      assert ids == [ids[0]] + ids[1..];
      if ids[0] == x then ids[1..] else [ids[0]] + RemoveFirstId(ids[1..], x)
  }

  /** Unassigning right after an assign restores the group's list of user ids. */
  lemma {:induction false} UnassignUndoesAssign(ids: seq<Id>, x: Id)
    requires x !in ids
    ensures RemoveFirstId(ids + [x], x) == ids
  {
    if ids == [] {
      assert ids + [x] == [x];
    } else {
      var tail := ids[1..];
      assert ids[0] != x && x !in tail;
      assert (ids + [x])[0] == ids[0];
      assert (ids + [x])[1..] == tail + [x];
      UnassignUndoesAssign(tail, x);
      assert RemoveFirstId(ids + [x], x) == [ids[0]] + RemoveFirstId(tail + [x], x);
      assert [ids[0]] + tail == ids;
    }
  }

  /** In a list without duplicates, removing the first occurrence of x removes x altogether. */
  lemma {:induction false} RemoveFirstIdRemoves(ids: seq<Id>, x: Id)
    requires forall i, j :: 0 <= i < j < |ids| ==> ids[i] != ids[j]
    ensures x !in RemoveFirstId(ids, x)
    ensures forall y :: y in RemoveFirstId(ids, x) <==> y in ids && y != x
  {
    if ids != [] {
      if ids[0] == x {
        forall y | y in ids[1..] ensures y != x {
          var j :| 0 <= j < |ids| - 1 && ids[1..][j] == y;
          assert ids[j + 1] == y;
        }
      } else {
        RemoveFirstIdRemoves(ids[1..], x);
      }
    }
  }

  /** The loop that strips a group id from one user's list of group ids. */
  method RemoveGroupId(userGroupIds: seq<Id>, id: Id) returns (kept: seq<Id>)
    ensures kept == RemoveAll(userGroupIds, id)
  {
    kept := [];
    var k := 0;
    while k < |userGroupIds|
      invariant 0 <= k <= |userGroupIds|
      invariant kept == RemoveAll(userGroupIds[..k], id)
    {
      assert userGroupIds[..k + 1] == userGroupIds[..k] + [userGroupIds[k]];
      RemoveAllConcat(userGroupIds[..k], [userGroupIds[k]], id);
      if userGroupIds[k] != id {
        kept := kept + [userGroupIds[k]];
      }
      k := k + 1;
    }
    assert userGroupIds[..k] == userGroupIds;
  }

  /** The user with the group id removed from its list. */
  function StripUser(u: User, id: Id): User {
    u.(userGroupIds := RemoveAll(u.userGroupIds, id))
  }

  /** Stripping a group id keeps the user's id and email and exactly the user's other group ids. */
  lemma StripUserKeepsOthers(u: User, id: Id, x: Id)
    ensures StripUser(u, id).id == u.id && StripUser(u, id).email == u.email
    ensures id !in StripUser(u, id).userGroupIds
    ensures x in StripUser(u, id).userGroupIds <==> x in u.userGroupIds && x != id
  {
  }

  /** The users with the group id stripped from the first i of them. */
  function StripPrefix(users: seq<User>, id: Id, i: nat): (r: seq<User>)
    requires i <= |users|
    ensures |r| == |users|
    ensures forall j :: 0 <= j < i ==> r[j] == StripUser(users[j], id)
    ensures forall j :: i <= j < |users| ==> r[j] == users[j]
  {
    seq(|users|, j requires 0 <= j < |users| => if j < i then StripUser(users[j], id) else users[j])
  }

  lemma StripPrefixStep(users: seq<User>, id: Id, i: nat)
    requires i < |users|
    ensures StripPrefix(users, id, i + 1) == StripPrefix(users, id, i)[i := StripUser(users[i], id)]
  {
  }

  /** Position of the first user whose stripped update the user service
      rejects, or the number of users when it accepts every one. */
  function FirstRejected(users: seq<User>, id: Id, userUpdate: User -> ServiceResult<Payload>): (k: nat)
    ensures k <= |users|
    ensures forall j :: 0 <= j < k ==> !userUpdate(StripUser(users[j], id)).error
    ensures k < |users| ==> userUpdate(StripUser(users[k], id)).error
  {
    if users == [] then 0
    else if userUpdate(StripUser(users[0], id)).error then 0
    else 1 + FirstRejected(users[1..], id, userUpdate)
  }

  /** The users the ids resolve to, one entry per id, in the same order. */
  function LookupUsers(users: seq<User>, ids: seq<Id>): (r: seq<Option<User>>)
    ensures |r| == |ids|
    ensures forall k :: 0 <= k < |ids| ==> r[k] == FindUser(users, ids[k])
  {
    if ids == [] then [] else [FindUser(users, ids[0])] + LookupUsers(users, ids[1..])
  }

  /** The dto of a group over the given user store. */
  function DtoOf(g: UserGroup, users: seq<User>): (r: UserGroupDto)
    ensures r.id == g.id && r.name == g.name && r.userIds == g.userIds && r.permissions == g.permissions
    ensures |r.users| == |g.userIds|
  {
    UserGroupDto(g.id, g.name, g.userIds, g.permissions, LookupUsers(users, g.userIds))
  }

  class UserGroupService {
    /** The user service's store. */
    var users: seq<User>
    /** The user-group repository. */
    var groups: seq<UserGroup>
    /** Users whose sessions were told to reload their user object, in order. */
    ghost var refreshed: seq<Id>
    /** Results passed to the endpoint for broadcast, in order. */
    ghost var published: seq<ServiceResult<Payload>>

    ghost predicate Valid()
      reads this
    {
      UniqueUserIds(users) && UniqueGroupIds(groups)
    }

    /** The constructor that is handed the group repository and the user service. */
    constructor (storedUsers: seq<User>, storedGroups: seq<UserGroup>)
      requires UniqueUserIds(storedUsers) && UniqueGroupIds(storedGroups)
      ensures Valid()
      ensures users == storedUsers && groups == storedGroups
      ensures refreshed == [] && published == []
    {
      users, groups := storedUsers, storedGroups;
      refreshed, published := [], [];
    }

    /** getUserGroupDto: the group's fields and one looked-up user per user id, in order. */
    method GetUserGroupDto(group: UserGroup) returns (dto: UserGroupDto)
      ensures dto.id == group.id && dto.name == group.name
      ensures dto.userIds == group.userIds && dto.permissions == group.permissions
      ensures |dto.users| == |group.userIds|
      ensures forall k :: 0 <= k < |group.userIds| ==> dto.users[k] == FindUser(users, group.userIds[k])
      ensures dto == DtoOf(group, users)
    {
      var found: seq<Option<User>> := [];
      var k := 0;
      while k < |group.userIds|
        invariant 0 <= k <= |group.userIds|
        invariant |found| == k
        invariant forall j :: 0 <= j < k ==> found[j] == FindUser(users, group.userIds[j])
      {
        found := found + [FindUser(users, group.userIds[k])];
        k := k + 1;
      }
      dto := UserGroupDto(group.id, group.name, group.userIds, group.permissions, found);
    }

    /** getAllUserGroups: one dto per stored group, in store order, each with
        its users looked up; never an error. */
    method GetAllUserGroups() returns (r: ServiceResult<Payload>)
      ensures !r.error && r.message == GroupsRetrievedMessage
      ensures r.entity.Some? && r.entity.value.GroupDtos?
      ensures |r.entity.value.dtos| == |groups|
      ensures forall k :: 0 <= k < |groups| ==> r.entity.value.dtos[k] == DtoOf(groups[k], users)
    {
      var dtos: seq<UserGroupDto> := [];
      var i := 0;
      while i < |groups|
        invariant 0 <= i <= |groups|
        invariant |dtos| == i
        invariant forall k :: 0 <= k < i ==> dtos[k] == DtoOf(groups[k], users)
      {
        var group := groups[i];
        var found: seq<Option<User>> := [];
        var k := 0;
        while k < |group.userIds|
          invariant 0 <= k <= |group.userIds|
          invariant |found| == k
          invariant forall j :: 0 <= j < k ==> found[j] == FindUser(users, group.userIds[j])
        {
          found := found + [FindUser(users, group.userIds[k])];
          k := k + 1;
        }
        assert found == LookupUsers(users, group.userIds);
        dtos := dtos + [UserGroupDto(group.id, group.name, group.userIds, group.permissions, found)];
        i := i + 1;
      }
      r := ServiceResult(Some(GroupDtos(dtos)), false, GroupsRetrievedMessage);
    }

    /** addUserGroupDto: a new group with the dto's name and no users or
        permissions; the repository stores it when its id is free; the result
        reports success in every case. */
    method AddUserGroupDto(userGroupDto: UserGroupDto, newId: Id) returns (r: ServiceResult<Payload>)
      requires Valid()
      modifies this
      ensures Valid()
      ensures var g := UserGroup(newId, userGroupDto.name, [], []);
              && groups == (if FindGroup(old(groups), newId).None? then old(groups) + [g] else old(groups))
              && r == ServiceResult(Some(GroupDto(UserGroupDto(newId, userGroupDto.name, [], [], []))), false, GroupCreatedMessage)
      ensures users == old(users) && refreshed == old(refreshed) && published == old(published)
    {
      var g := UserGroup(newId, userGroupDto.name, [], []);
      if FindGroup(groups, newId).None? {
        forall a, b | 0 <= a < |groups| + 1 && 0 <= b < |groups| + 1 && (groups + [g])[a].id == (groups + [g])[b].id
          ensures a == b
        {
          if a < |groups| { assert (groups + [g])[a] in groups; }
          if b < |groups| { assert (groups + [g])[b] in groups; }
        }
        groups := groups + [g];
      }
      var dto := GetUserGroupDto(g);
      r := ServiceResult(Some(GroupDto(dto)), false, GroupCreatedMessage);
    }

    /** updateUserGroupDto: the stored group (a missing one is dereferenced as
        null) gets the dto's name, user ids and permissions, keeping its id; the
        result reports success and every listed user's session is refreshed. */
    method UpdateUserGroupDto(userGroupDto: UserGroupDto) returns (r: Outcome<ServiceResult<Payload>>)
      requires Valid()
      modifies this
      ensures Valid()
      ensures FindGroup(old(groups), userGroupDto.id).None? ==>
                r == Throws(NullPointerException) && groups == old(groups) && refreshed == old(refreshed)
      ensures FindGroup(old(groups), userGroupDto.id).Some? ==>
                var g := FindGroup(old(groups), userGroupDto.id).value.(name := userGroupDto.name,
                           userIds := userGroupDto.userIds, permissions := userGroupDto.permissions);
                && g.id == userGroupDto.id
                && groups == PutGroup(old(groups), g)
                && FindGroup(groups, userGroupDto.id) == Some(g)
                && r == Returns(ServiceResult(Some(GroupDto(DtoOf(g, users))), false, GroupUpdatedMessage))
                && refreshed == old(refreshed) + userGroupDto.userIds
      ensures users == old(users) && published == old(published)
    {
      var found := FindGroup(groups, userGroupDto.id);
      if found.None? {
        return Throws(NullPointerException);
      }
      var g := found.value.(name := userGroupDto.name, userIds := userGroupDto.userIds,
                            permissions := userGroupDto.permissions);
      FindGroupAfterPut(groups, g);
      groups := PutGroup(groups, g);
      var dto := GetUserGroupDto(g);
      r := Returns(ServiceResult(Some(GroupDto(dto)), false, GroupUpdatedMessage));
      refreshed := refreshed + g.userIds;
    }

    /** The loop of delete: the group id is stripped from each user in store
        order until the user service rejects an update, whose reply is returned. */
    method StripGroupFromUsers(id: Id, userUpdate: User -> ServiceResult<Payload>)
      returns (rejected: Option<ServiceResult<Payload>>)
      requires Valid()
      modifies this
      ensures Valid()
      ensures groups == old(groups) && refreshed == old(refreshed) && published == old(published)
      ensures var k := FirstRejected(old(users), id, userUpdate);
              && |users| == |old(users)|
              && (forall j :: 0 <= j < k ==> users[j] == StripUser(old(users)[j], id))
              && (forall j :: k <= j < |users| ==> users[j] == old(users)[j])
              && (rejected.Some? <==> k < |users|)
              && (k < |users| ==> rejected == Some(userUpdate(StripUser(old(users)[k], id))))
    {
      var all := users;
      var i := 0;
      while i < |all|
        invariant 0 <= i <= |all| && |users| == |all|
        invariant users == StripPrefix(all, id, i)
        invariant i <= FirstRejected(all, id, userUpdate)
        invariant UniqueUserIds(users)
        invariant groups == old(groups) && refreshed == old(refreshed) && published == old(published)
      {
        var kept := RemoveGroupId(all[i].userGroupIds, id);
        var user := all[i].(userGroupIds := kept);
        assert user == StripUser(all[i], id);
        var reply := userUpdate(user);
        if reply.error {
          assert FirstRejected(all, id, userUpdate) == i;
          return Some(reply);
        }
        PutUserAt(users, i, user);
        PutUserUnique(users, user);
        StripPrefixStep(all, id, i);
        users := PutUser(users, user);
        i := i + 1;
      }
      assert FirstRejected(all, id, userUpdate) == |all|;
      rejected := None;
    }

    /** delete: strips the group id from every user in store order, stops at
        the first update the user service rejects and returns that result with
        the group still stored; only when every user was updated is the group
        deleted (the deletion's own result is `groupDeleteReply`). */
    method Delete(id: Id, userUpdate: User -> ServiceResult<Payload>, groupDeleteReply: ServiceResult<Payload>)
      returns (r: ServiceResult<Payload>)
      requires Valid()
      modifies this
      ensures Valid()
      ensures refreshed == old(refreshed) && published == old(published)
      ensures var k := FirstRejected(old(users), id, userUpdate);
              && |users| == |old(users)|
              && (forall j :: 0 <= j < k ==> users[j] == StripUser(old(users)[j], id))
              && (forall j :: k <= j < |users| ==> users[j] == old(users)[j])
              && (k < |users| ==> r == userUpdate(StripUser(old(users)[k], id)) && groups == old(groups))
              && (k == |users| ==> r == groupDeleteReply
                                   && groups == if r.error then old(groups) else DropGroup(old(groups), id))
      ensures !r.error ==> (forall j :: 0 <= j < |users| ==> id !in users[j].userGroupIds)
                           && FindGroup(groups, id).None?
    {
      var rejected := StripGroupFromUsers(id, userUpdate);
      if rejected.Some? {
        return rejected.value;
      }
      assert forall j :: 0 <= j < |users| ==> id !in users[j].userGroupIds;
      r := groupDeleteReply;
      if !r.error {
        DropGroupRemoves(groups, id);
        groups := DropGroup(groups, id);
      }
    }

    /** What assign and unassign do once their guard holds: the user is written
        back (the store changes only if the user service accepts), the group is
        written back, the user's sessions are refreshed, the user is broadcast
        with `note`, and the group's dto is returned as a success whatever the
        writes answered. */
    method WriteMembership(user: User, g': UserGroup, userUpdate: User -> ServiceResult<Payload>, note: string)
      returns (r: Outcome<ServiceResult<Payload>>)
      requires Valid() && FindGroup(groups, g'.id).Some?
      modifies this
      ensures Valid()
      ensures groups == PutGroup(old(groups), g') && FindGroup(groups, g'.id) == Some(g')
      ensures users == (if userUpdate(user).error then old(users) else PutUser(old(users), user))
      ensures FindUser(old(users), user.id).Some? && !userUpdate(user).error ==> FindUser(users, user.id) == Some(user)
      ensures r == Returns(ServiceResult(Some(GroupDto(DtoOf(g', users))), false, GroupUpdatedMessage))
      ensures refreshed == old(refreshed) + [user.id]
      ensures published == old(published) + [ServiceResult(Some(UserObject(user)), false, note)]
    {
      if !userUpdate(user).error {
        if FindUser(users, user.id).Some? {
          FindUserAfterPut(users, user);
        }
        PutUserUnique(users, user);
        users := PutUser(users, user);
      }
      FindGroupAfterPut(groups, g');
      PutGroupUnique(groups, g');
      groups := PutGroup(groups, g');
      var dto := GetUserGroupDto(g');
      published := published + [ServiceResult(Some(UserObject(user)), false, note)];
      refreshed := refreshed + [user.id];
      r := Returns(ServiceResult(Some(GroupDto(dto)), false, GroupUpdatedMessage));
    }

    /** assignUserToGroup: succeeds exactly when the caller's user lists the
        group and the stored group does not list the user; the group gains the
        user's id, both are written back and success is reported whatever the
        writes answer. Any other state is an error that changes nothing. */
    method AssignUserToGroup(user: User, userGroupDto: UserGroupDto, userUpdate: User -> ServiceResult<Payload>)
      returns (r: Outcome<ServiceResult<Payload>>)
      requires Valid()
      modifies this
      ensures Valid()
      ensures FindGroup(old(groups), userGroupDto.id).None? ==>
                r == Throws(NullPointerException) && unchanged(this)
      ensures FindGroup(old(groups), userGroupDto.id).Some? && !CanAssign(user, FindGroup(old(groups), userGroupDto.id).value) ==>
                r == Returns(ServiceResult(None, true, AlreadyAssignedMessage)) && unchanged(this)
      ensures FindGroup(old(groups), userGroupDto.id).Some? && CanAssign(user, FindGroup(old(groups), userGroupDto.id).value) ==>
                var g := FindGroup(old(groups), userGroupDto.id).value;
                var g' := g.(userIds := g.userIds + [user.id]);
                && groups == PutGroup(old(groups), g')
                && FindGroup(groups, g.id) == Some(g')
                && g.id in user.userGroupIds && user.id in g'.userIds
                && users == (if userUpdate(user).error then old(users) else PutUser(old(users), user))
                && r == Returns(ServiceResult(Some(GroupDto(DtoOf(g', users))), false, GroupUpdatedMessage))
                && refreshed == old(refreshed) + [user.id]
                && published == old(published) + [ServiceResult(Some(UserObject(user)), false, UserAssignedMessage)]
      ensures FindGroup(old(groups), userGroupDto.id).Some? && CanAssign(user, FindGroup(old(groups), userGroupDto.id).value)
              && FindUser(old(users), user.id).Some? && !userUpdate(user).error ==>
                FindUser(users, user.id) == Some(user)
    {
      var found := FindGroup(groups, userGroupDto.id);
      if found.None? {
        return Throws(NullPointerException);
      }
      var g := found.value;
      if CanAssign(user, g) {
        var g' := g.(userIds := g.userIds + [user.id]);
        r := WriteMembership(user, g', userUpdate, UserAssignedMessage);
      } else {
        r := Returns(ServiceResult(None, true, AlreadyAssignedMessage));
      }
    }

    /** unassignUserFromGroup: the mirror of assign. It succeeds exactly when
        the caller's user no longer lists the group and the stored group still
        lists the user; the first occurrence of the user's id is removed from
        the group. Any other state is an error that changes nothing. */
    method UnassignUserFromGroup(user: User, userGroupDto: UserGroupDto, userUpdate: User -> ServiceResult<Payload>)
      returns (r: Outcome<ServiceResult<Payload>>)
      requires Valid()
      modifies this
      ensures Valid()
      ensures FindGroup(old(groups), userGroupDto.id).None? ==>
                r == Throws(NullPointerException) && unchanged(this)
      ensures FindGroup(old(groups), userGroupDto.id).Some? && !CanUnassign(user, FindGroup(old(groups), userGroupDto.id).value) ==>
                r == Returns(ServiceResult(None, true, AlreadyUnassignedMessage)) && unchanged(this)
      ensures FindGroup(old(groups), userGroupDto.id).Some? && CanUnassign(user, FindGroup(old(groups), userGroupDto.id).value) ==>
                var g := FindGroup(old(groups), userGroupDto.id).value;
                var g' := g.(userIds := RemoveFirstId(g.userIds, user.id));
                && groups == PutGroup(old(groups), g')
                && FindGroup(groups, g.id) == Some(g')
                && |g'.userIds| == |g.userIds| - 1
                && users == (if userUpdate(user).error then old(users) else PutUser(old(users), user))
                && r == Returns(ServiceResult(Some(GroupDto(DtoOf(g', users))), false, GroupUpdatedMessage))
                && refreshed == old(refreshed) + [user.id]
                && published == old(published) + [ServiceResult(Some(UserObject(user)), false, UserUnassignedMessage)]
      ensures FindGroup(old(groups), userGroupDto.id).Some? && CanUnassign(user, FindGroup(old(groups), userGroupDto.id).value)
              && FindUser(old(users), user.id).Some? && !userUpdate(user).error ==>
                FindUser(users, user.id) == Some(user)
    {
      var found := FindGroup(groups, userGroupDto.id);
      if found.None? {
        return Throws(NullPointerException);
      }
      var g := found.value;
      if CanUnassign(user, g) {
        var g' := g.(userIds := RemoveFirstId(g.userIds, user.id));
        r := WriteMembership(user, g', userUpdate, UserUnassignedMessage);
      } else {
        r := Returns(ServiceResult(None, true, AlreadyUnassignedMessage));
      }
    }

    /** Two assigns of the same user to the same group in a row: when the first
        succeeds, the second fails, because the group now lists the user. */
    method AssignTwice(user: User, userGroupDto: UserGroupDto, userUpdate: User -> ServiceResult<Payload>)
      returns (first: Outcome<ServiceResult<Payload>>, second: Outcome<ServiceResult<Payload>>)
      requires Valid()
      modifies this
      ensures first.Returns? && !first.value.error ==>
                second == Returns(ServiceResult(None, true, AlreadyAssignedMessage))
    {
      first := AssignUserToGroup(user, userGroupDto, userUpdate);
      second := AssignUserToGroup(user, userGroupDto, userUpdate);
    }
  }
}
