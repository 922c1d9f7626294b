/** The group membership manager: groups, and the many-to-many membership
    relation between groups and members, with the integrity rules its
    service applies on lookup, cascading delete, add and remove. */
module Groups {
  import opened Outcomes
  import opened Store

  function GroupNotFound(id: Id): string {
    "Group with ID " + id + " not found"
  }

  function AlreadyInGroup(groupId: Id, memberId: Id): string {
    "Member " + memberId + " is already in group " + groupId
  }

  function NotInGroup(groupId: Id, memberId: Id): string {
    "Member " + memberId + " not found in group " + groupId
  }

  /** A group with the ids of its members, as `findOne` loads it. */
  datatype GroupDetail = GroupDetail(group: Group, memberIds: set<Id>)

  /** The members of group `id`, read off the membership relation. */
  function Roster(s: Store, id: Id): set<Id> {
    set p | p in s.memberships && p.groupId == id :: p.memberId
  }

  function FindOne(s: Store, id: Id): (r: Result<GroupDetail>)
    ensures r.Failure? <==> id !in s.groups
    ensures r.Failure? ==> r.error == NotFound(GroupNotFound(id))
    ensures r.Success? ==> r.value.group == s.groups[id]
    ensures r.Success? ==> forall m :: m in r.value.memberIds <==> Membership(m, id) in s.memberships
  {
    if id !in s.groups then Failure(NotFound(GroupNotFound(id)))
    else Success(GroupDetail(s.groups[id], Roster(s, id)))
  }

  /** `membersOnGroups.deleteMany({ where: { groupId } })`. */
  function DeleteMemberships(s: Store, groupId: Id): Store {
    s.(memberships := set p | p in s.memberships && p.groupId != groupId)
  }

  /** `group.delete({ where: { id } })`. It fails with the ORM's code on a
      missing row; on an existing row it fails with whatever database fault
      the environment injects through `fault`. */
  function DeleteGroup(s: Store, id: Id, fault: Option<string>): Step<Group> {
    if id !in s.groups then Step(Failure(Database(RecordToDeleteMissing)), s)
    else if fault.Some? then Step(Failure(Database(fault.value)), s)
    else Step(Success(s.groups[id]), s.(groups := s.groups - {id}))
  }

  /** Deletes the group's memberships, then the group, in one transaction:
      when the group delete fails, the memberships deleted before it are
      restored. */
  function Remove(s: Store, id: Id, fault: Option<string>): (r: Step<Group>)
    ensures r.result.Success? <==> id in s.groups && fault.None?
    ensures r.result.Failure? ==> r.state == s
    ensures id !in s.groups ==> r.result == Failure(Database(RecordToDeleteMissing))
    ensures id in s.groups && fault.Some? ==> r.result == Failure(Database(fault.value))
    ensures r.result.Success? ==> r.result.value == s.groups[id]
    ensures r.result.Success? ==> r.state.groups.Keys == s.groups.Keys - {id}
    ensures r.result.Success? ==> forall g | g in r.state.groups :: r.state.groups[g] == s.groups[g]
    ensures r.result.Success? ==> forall p | p in r.state.memberships :: p.groupId != id
    ensures r.result.Success? ==> forall p: Membership | p.groupId != id :: p in r.state.memberships <==> p in s.memberships
    ensures OnlyGroupTablesChanged(s, r.state)
  {
    Commit(s, DeleteGroup(DeleteMemberships(s, id), id, fault))
  }

  /** Checks, in this order, that the group exists, that the member exists
      and that they are not already joined, then inserts the membership. */
  function AddMember(s: Store, groupId: Id, memberId: Id): (r: Step<Membership>)
    ensures r.result.Failure? ==> r.state == s
    ensures groupId !in s.groups ==> r.result == Failure(NotFound(GroupNotFound(groupId)))
    ensures groupId in s.groups && memberId !in s.members ==>
              r.result == Failure(NotFound(MemberNotFound(memberId)))
    ensures groupId in s.groups && memberId in s.members && Membership(memberId, groupId) in s.memberships ==>
              r.result == Failure(BadRequest(AlreadyInGroup(groupId, memberId)))
    ensures r.result.Success? <==>
              groupId in s.groups && memberId in s.members && Membership(memberId, groupId) !in s.memberships
    ensures r.result.Success? ==> r.result.value == Membership(memberId, groupId)
    ensures r.result.Success? ==> r.state.memberships == s.memberships + {Membership(memberId, groupId)}
    ensures OnlyGroupTablesChanged(s, r.state) && r.state.groups == s.groups
  {
    if groupId !in s.groups then Step(Failure(NotFound(GroupNotFound(groupId))), s)
    else if memberId !in s.members then Step(Failure(NotFound(MemberNotFound(memberId))), s)
    else if Membership(memberId, groupId) in s.memberships then
      Step(Failure(BadRequest(AlreadyInGroup(groupId, memberId))), s)
    else
      var row := Membership(memberId, groupId);
      Step(Success(row), s.(memberships := s.memberships + {row}))
  }

  /** Deletes the membership row of the pair; looks at nothing else. */
  function RemoveMember(s: Store, groupId: Id, memberId: Id): (r: Step<Membership>)
    ensures r.result.Success? <==> Membership(memberId, groupId) in s.memberships
    ensures r.result.Failure? ==>
              r.result.error == NotFound(NotInGroup(groupId, memberId)) && r.state == s
    ensures r.result.Success? ==> r.result.value == Membership(memberId, groupId)
    ensures r.result.Success? ==>
              r.state.memberships == s.memberships - {Membership(memberId, groupId)}
    ensures OnlyGroupTablesChanged(s, r.state) && r.state.groups == s.groups
  {
    var row := Membership(memberId, groupId);
    if row !in s.memberships then Step(Failure(NotFound(NotInGroup(groupId, memberId))), s)
    else Step(Success(row), s.(memberships := s.memberships - {row}))
  }

  // ---------------------------------------------------------------------------
  // Properties over several calls

  /** The two not-found messages of `addMember` never coincide, so the error
      says which of group and member was missing. */
  lemma MissingGroupAndMissingMemberDiffer(groupId: Id, memberId: Id)
    ensures GroupNotFound(groupId) != MemberNotFound(memberId)
  {
    assert GroupNotFound(groupId)[0] == 'G';
    assert MemberNotFound(memberId)[0] == 'M';
  }

  /** A missing group is reported whatever the member, even a missing one. */
  lemma AddMemberChecksGroupFirst(s: Store, groupId: Id, memberId: Id)
    requires groupId !in s.groups
    ensures AddMember(s, groupId, memberId) == Step(Failure(NotFound(GroupNotFound(groupId))), s)
    ensures forall m :: AddMember(s, groupId, memberId).result != Failure(NotFound(MemberNotFound(m)))
  {
    forall m ensures GroupNotFound(groupId) != MemberNotFound(m) {
      MissingGroupAndMissingMemberDiffer(groupId, m);
    }
  }

  /** A second identical `addMember` is refused and changes nothing. */
  lemma AddMemberTwiceFails(s: Store, groupId: Id, memberId: Id)
    requires AddMember(s, groupId, memberId).result.Success?
    ensures var t := AddMember(s, groupId, memberId).state;
            AddMember(t, groupId, memberId) == Step(Failure(BadRequest(AlreadyInGroup(groupId, memberId))), t)
  {
  }

  /** A second identical `removeMember` is refused and changes nothing. */
  lemma RemoveMemberTwiceFails(s: Store, groupId: Id, memberId: Id)
    requires RemoveMember(s, groupId, memberId).result.Success?
    ensures var t := RemoveMember(s, groupId, memberId).state;
            RemoveMember(t, groupId, memberId) == Step(Failure(NotFound(NotInGroup(groupId, memberId))), t)
  {
  }

  /** `removeMember` undoes a successful `addMember`. */
  lemma RemoveMemberUndoesAddMember(s: Store, groupId: Id, memberId: Id)
    requires AddMember(s, groupId, memberId).result.Success?
    ensures var t := AddMember(s, groupId, memberId).state;
            RemoveMember(t, groupId, memberId) == Step(Success(Membership(memberId, groupId)), s)
  {
  }

  /** On a consistent store `addMember` undoes a successful `removeMember`:
      the foreign keys guarantee that group and member still exist. */
  lemma AddMemberUndoesRemoveMember(s: Store, groupId: Id, memberId: Id)
    requires Valid(s)
    requires RemoveMember(s, groupId, memberId).result.Success?
    ensures var t := RemoveMember(s, groupId, memberId).state;
            AddMember(t, groupId, memberId) == Step(Success(Membership(memberId, groupId)), s)
  {
  }

  /** `removeMember` consults the membership relation only: neither the
      group nor the member registry affects its outcome. */
  lemma RemoveMemberIgnoresRegistries(s: Store, t: Store, groupId: Id, memberId: Id)
    requires s.memberships == t.memberships
    ensures RemoveMember(s, groupId, memberId).result == RemoveMember(t, groupId, memberId).result
    ensures RemoveMember(s, groupId, memberId).state.memberships
         == RemoveMember(t, groupId, memberId).state.memberships
  {
  }

  /** After removing a group, looking it up fails and none of its
      memberships survives. */
  lemma FindOneAfterRemoveFails(s: Store, id: Id, fault: Option<string>)
    requires Remove(s, id, fault).result.Success?
    ensures var t := Remove(s, id, fault).state;
            && FindOne(t, id) == Failure(NotFound(GroupNotFound(id)))
            && Roster(t, id) == {}
  {
  }

  /** When the group delete faults after the memberships were deleted, the
      transaction puts every membership of the group back. */
  lemma FaultingRemoveKeepsMemberships(s: Store, id: Id, code: string)
    requires id in s.groups
    ensures Remove(s, id, Some(code)).result == Failure(Database(code))
    ensures forall m :: Membership(m, id) !in DeleteMemberships(s, id).memberships
    ensures forall m :: Membership(m, id) in Remove(s, id, Some(code)).state.memberships <==> Membership(m, id) in s.memberships
  {
  }

  lemma RemovePreservesValid(s: Store, id: Id, fault: Option<string>)
    requires Valid(s)
    ensures Valid(Remove(s, id, fault).state)
  {
  }

  lemma AddMemberPreservesValid(s: Store, groupId: Id, memberId: Id)
    requires Valid(s)
    ensures Valid(AddMember(s, groupId, memberId).state)
  {
  }

  lemma RemoveMemberPreservesValid(s: Store, groupId: Id, memberId: Id)
    requires Valid(s)
    ensures Valid(RemoveMember(s, groupId, memberId).state)
  {
  }
}
