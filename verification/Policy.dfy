/** Who may do what, and who may hand it out (backend/accounts/policy.py). */
module Policy {
  import opened Options

  /** The fifteen listed capabilities, and any other string a caller may send. */
  datatype Perm =
    | PeopleView | PeopleManage | PeopleAdmin | PayrollView | PayrollRun | ExpensesManage | AttendanceManage
    | LeaveApprove | RecruitmentManage | ReportsView | SettingsManage | CrmManage | MailAccess | WorkplaceManage
    | DashboardView | Unlisted(name: string)

  datatype Role = Owner | HrAdmin | HrOfficer | Employee | UnknownRole(name: string)

  datatype User = User(role: Role, isSuperuser: bool, isActive: bool)

  datatype Store = Store(users: map<int, User>, grants: set<(int, Perm)>)

  const ALL_PERMS: set<Perm> := {
    PeopleView, PeopleManage, PeopleAdmin, PayrollView, PayrollRun, ExpensesManage, AttendanceManage, LeaveApprove,
    RecruitmentManage, ReportsView, SettingsManage, CrmManage, MailAccess, WorkplaceManage, DashboardView
  }

  const OFFICER_PERMISSIONS: set<Perm> := {
    PeopleView, PeopleManage, AttendanceManage, LeaveApprove, WorkplaceManage, ReportsView, DashboardView
  }

  function RolePermissions(role: Role): set<Perm> {
    match role
    case Owner => ALL_PERMS
    case HrAdmin => ALL_PERMS
    case HrOfficer => OFFICER_PERMISSIONS
    case Employee => {}
    case UnknownRole(_) => {}
  }

  // ---------- the questions ----------

  /** `can`: None is a caller who is not signed in. */
  predicate Can(s: Store, actor: Option<int>, p: Perm) {
    if actor.None? || actor.value !in s.users then false
    else
      var u := s.users[actor.value];
      if !u.isActive then false
      else if u.isSuperuser then true
      else if u.role == Owner then true
      else if p in RolePermissions(u.role) then true
      else Granted(s, actor.value, p)
  }

  predicate Granted(s: Store, user: int, p: Perm) {
    (user, p) in s.grants
  }

  predicate Shapes(u: User) {
    u.isSuperuser || u.role == Owner || u.role == HrAdmin
  }

  /** `can_create` and `can_delete`: the capability, and then the role. */
  predicate CanCreate(s: Store, actor: Option<int>, p: Perm) {
    Can(s, actor, p) && Shapes(s.users[actor.value])
  }

  predicate CanDelete(s: Store, actor: Option<int>, p: Perm) {
    Can(s, actor, p) && Shapes(s.users[actor.value])
  }

  /** `users_with`: None where the permission is not on the list and the source raises. */
  function UsersWith(s: Store, p: Perm): Option<set<int>> {
    if p !in ALL_PERMS then None
    else
      var roles := set r | r in {Owner, HrAdmin, HrOfficer, Employee} && p in RolePermissions(r);
      Some(set u | u in s.users && s.users[u].isActive
                   && (s.users[u].isSuperuser || s.users[u].role == Owner || (u, p) in s.grants
                     || s.users[u].role in roles))
  }

  function PermissionsOf(s: Store, actor: Option<int>): set<Perm> {
    if actor.None? || actor.value !in s.users || !s.users[actor.value].isActive then {}
    else
      var u := s.users[actor.value];
      if u.isSuperuser || u.role == Owner then ALL_PERMS
      else RolePermissions(u.role) + set g | g in s.grants && g.0 == actor.value :: g.1
  }

  // ---------- delegation ----------

  datatype Refusal = NoSuchPermission | NeverGrantable | NotAdmin | NotHeld | NoSuchRole
    | OwnerNotAppointable | OwnerFixed | OwnerOnly
  datatype Reply = Done | Refused(why: Refusal)

  datatype Step =
    | Grant(actor: Option<int>, user: int, perm: Perm)
    | Revoke(actor: Option<int>, user: int, perm: Perm)
    | SetRole(actor: Option<int>, user: int, role: Role)

  function GrantReply(s: Store, actor: Option<int>, perm: Perm): Reply {
    if perm !in ALL_PERMS then Refused(NoSuchPermission)
    else if perm == PeopleAdmin then Refused(NeverGrantable)
    else if !Can(s, actor, PeopleAdmin) then Refused(NotAdmin)
    else if !Can(s, actor, perm) then Refused(NotHeld)
    else Done
  }

  /** The root of trust: an active owner or superuser. */
  predicate Root(s: Store, actor: Option<int>) {
    actor.Some? && actor.value in s.users && s.users[actor.value].isActive
    && (s.users[actor.value].isSuperuser || s.users[actor.value].role == Owner)
  }

  function SetRoleReply(s: Store, actor: Option<int>, user: int, role: Role): Reply
    requires user in s.users
  {
    if role.UnknownRole? then Refused(NoSuchRole)
    else if role == Owner then Refused(OwnerNotAppointable)
    else if !Can(s, actor, PeopleAdmin) then Refused(NotAdmin)
    else if s.users[user].role == Owner then Refused(OwnerFixed)
    else if role == HrAdmin && !Root(s, actor) then Refused(OwnerOnly)
    else if s.users[user].role == HrAdmin && !Root(s, actor) then Refused(OwnerOnly)
    else Done
  }

  function After(s: Store, step: Step): Store {
    match step
    case Grant(actor, user, perm) =>
      if user in s.users && GrantReply(s, actor, perm) == Done then s.(grants := s.grants + {(user, perm)}) else s
    case Revoke(actor, user, perm) =>
      if Can(s, actor, PeopleAdmin) then s.(grants := s.grants - {(user, perm)}) else s
    case SetRole(actor, user, role) =>
      if user in s.users && SetRoleReply(s, actor, user, role) == Done then
        Store(s.users[user := s.users[user].(role := role)],
              if role == HrOfficer then s.grants else set g | g in s.grants && g.0 != user)
      else s
  }

  function Run(s: Store, steps: seq<Step>): Store
    decreases |steps|
  {
    if steps == [] then s else Run(After(s, steps[0]), steps[1..])
  }

  class Directory {
    var users: map<int, User>
    var grants: set<(int, Perm)>

    ghost function View(): Store
      reads this
    {
      Store(users, grants)
    }

    constructor (users: map<int, User>)
      ensures View() == Store(users, {})
    {
      this.users, grants := users, {};
    }

    method GrantPermission(actor: Option<int>, user: int, perm: Perm) returns (r: Reply)
      requires user in users
      modifies this
      ensures r == GrantReply(old(View()), actor, perm)
      ensures View() == After(old(View()), Grant(actor, user, perm))
    {
      if perm !in ALL_PERMS { return Refused(NoSuchPermission); }
      if perm == PeopleAdmin { return Refused(NeverGrantable); }
      if !Can(Store(users, grants), actor, PeopleAdmin) { return Refused(NotAdmin); }
      if !Can(Store(users, grants), actor, perm) { return Refused(NotHeld); }
      grants := grants + {(user, perm)};
      return Done;
    }

    method RevokePermission(actor: Option<int>, user: int, perm: Perm) returns (r: Reply)
      modifies this
      ensures r == if Can(old(View()), actor, PeopleAdmin) then Done else Refused(NotAdmin)
      ensures View() == After(old(View()), Revoke(actor, user, perm))
    {
      if !Can(Store(users, grants), actor, PeopleAdmin) { return Refused(NotAdmin); }
      grants := grants - {(user, perm)};
      return Done;
    }

    method Appoint(actor: Option<int>, user: int, role: Role) returns (r: Reply)
      requires user in users
      modifies this
      ensures r == SetRoleReply(old(View()), actor, user, role)
      ensures View() == After(old(View()), SetRole(actor, user, role))
    {
      if role.UnknownRole? { return Refused(NoSuchRole); }
      if role == Owner { return Refused(OwnerNotAppointable); }
      if !Can(Store(users, grants), actor, PeopleAdmin) { return Refused(NotAdmin); }
      if users[user].role == Owner { return Refused(OwnerFixed); }
      var root := users[actor.value].isSuperuser || users[actor.value].role == Owner;
      if role == HrAdmin && !root { return Refused(OwnerOnly); }
      if users[user].role == HrAdmin && !root { return Refused(OwnerOnly); }
      users := users[user := users[user].(role := role)];
      if role != HrOfficer { grants := set g | g in grants && g.0 != user; }
      return Done;
    }
  }

  // ---------- one question, three shapes ----------

  /** For every listed permission the singular, the plural and the list answer alike, at
      every state. */
  lemma QuestionsAgree(s: Store, u: int, p: Perm)
    requires p in ALL_PERMS
    ensures Can(s, Some(u), p) <==> u in UsersWith(s, p).value
    ensures Can(s, Some(u), p) <==> p in PermissionsOf(s, Some(u))
  {
  }

  /** Off the list they part for exactly the people who need no list. */
  lemma UnlistedQuestionsPart(s: Store, u: int, p: Perm)
    requires p !in ALL_PERMS
    ensures (Can(s, Some(u), p) <==> p in PermissionsOf(s, Some(u))) <==> !Root(s, Some(u))
  {
  }

  // ---------- safety over runs ----------

  ghost predicate NoAdminGrants(s: Store) {
    forall u :: !Granted(s, u, PeopleAdmin)
  }

  function Holders(s: Store, role: Role): set<int> {
    set u | u in s.users && s.users[u].role == role
  }

  /** Who each step is taken by. */
  function Actor(step: Step): Option<int> {
    step.actor
  }

  /** While nobody has been granted `people.admin`, it is held by role alone. */
  lemma AdministersByRole(s: Store, actor: Option<int>)
    requires NoAdminGrants(s)
    ensures Can(s, actor, PeopleAdmin) <==>
      actor.Some? && actor.value in s.users && s.users[actor.value].isActive && Shapes(s.users[actor.value])
  {
  }

  /** Only a root or an HR admin can act at all, and only a root moves HR admins. */
  lemma StepIsBounded(s: Store, step: Step)
    ensures Holders(After(s, step), Owner) == Holders(s, Owner)
    ensures Holders(After(s, step), HrAdmin) != Holders(s, HrAdmin) ==> Root(s, Actor(step))
    ensures forall u :: Granted(After(s, step), u, PeopleAdmin) ==> Granted(s, u, PeopleAdmin)
    ensures After(s, step).users.Keys == s.users.Keys
    ensures forall u | u in s.users ::
      && After(s, step).users[u].isActive == s.users[u].isActive
      && After(s, step).users[u].isSuperuser == s.users[u].isSuperuser
    ensures NoAdminGrants(s) && After(s, step) != s ==>
      Actor(step).Some? && Actor(step).value in s.users && s.users[Actor(step).value].isActive
        && Shapes(s.users[Actor(step).value])
  {
    if NoAdminGrants(s) { AdministersByRole(s, Actor(step)); }
  }

  /** No run creates a `people.admin` grant, and none changes who the owners are. */
  lemma {:induction false} RootOfTrustIsFixed(s: Store, steps: seq<Step>)
    ensures Holders(Run(s, steps), Owner) == Holders(s, Owner)
    ensures forall u :: Granted(Run(s, steps), u, PeopleAdmin) ==> Granted(s, u, PeopleAdmin)
    decreases |steps|
  {
    if steps != [] {
      StepIsBounded(s, steps[0]);
      RootOfTrustIsFixed(After(s, steps[0]), steps[1..]);
    }
  }

  /** A run in which no root acts. */
  ghost predicate WithoutRoot(s: Store, steps: seq<Step>)
    decreases |steps|
  {
    steps == [] || (!Root(s, Actor(steps[0])) && WithoutRoot(After(s, steps[0]), steps[1..]))
  }

  /** Without a root taking part, the HR admins stay the same people, so nobody gains the
      power to appoint, grant, create or delete, whatever is granted to whom. */
  lemma {:induction false} NobodyRisesWithoutRoot(s: Store, steps: seq<Step>)
    requires NoAdminGrants(s) && WithoutRoot(s, steps)
    ensures var t := Run(s, steps);
      && Holders(t, HrAdmin) == Holders(s, HrAdmin)
      && NoAdminGrants(t)
      && t.users.Keys == s.users.Keys
      && forall u | u in s.users ::
           t.users[u].isActive == s.users[u].isActive && t.users[u].isSuperuser == s.users[u].isSuperuser
    decreases |steps|
  {
    if steps != [] {
      StepIsBounded(s, steps[0]);
      NobodyRisesWithoutRoot(After(s, steps[0]), steps[1..]);
    }
  }

  lemma PowersWithoutRoot(s: Store, steps: seq<Step>, actor: Option<int>, p: Perm)
    requires NoAdminGrants(s) && WithoutRoot(s, steps)
    ensures Can(Run(s, steps), actor, PeopleAdmin) <==> Can(s, actor, PeopleAdmin)
    ensures CanCreate(Run(s, steps), actor, p) ==> CanCreate(s, actor, PeopleAdmin)
    ensures CanDelete(Run(s, steps), actor, p) ==> CanDelete(s, actor, PeopleAdmin)
  {
    var t := Run(s, steps);
    NobodyRisesWithoutRoot(s, steps);
    RootOfTrustIsFixed(s, steps);
    if actor.Some? && actor.value in s.users {
      var a := actor.value;
      assert a in Holders(t, Owner) <==> a in Holders(s, Owner);
      assert a in Holders(t, HrAdmin) <==> a in Holders(s, HrAdmin);
    }
  }

  /** Whatever is granted to them, at any state nobody outside owner, HR admin and
      superuser creates or deletes anything; those three may, for every listed permission. */
  lemma OnlyShapersCreate(s: Store, u: int, p: Perm)
    requires u in s.users && p in ALL_PERMS
    ensures CanCreate(s, Some(u), p) <==> s.users[u].isActive && Shapes(s.users[u])
    ensures CanDelete(s, Some(u), p) <==> CanCreate(s, Some(u), p)
  {
  }

  /** The second rule of `grant`, that the actor must hold what they hand out, never refuses
      anybody while no `people.admin` grant exists: whoever administers holds it all. */
  lemma HoldingRuleIsIdle(s: Store, actor: Option<int>, perm: Perm)
    requires NoAdminGrants(s)
    ensures GrantReply(s, actor, perm) != Refused(NotHeld)
  {
  }

  /** A grant takes effect for its one holder and that one permission, officer or not; a
      revocation by the same people undoes it. */
  lemma GrantReachesOnePerson(s: Store, actor: Option<int>, user: int, perm: Perm, other: int, q: Perm)
    requires user in s.users && GrantReply(s, actor, perm) == Done
    ensures var t := After(s, Grant(actor, user, perm));
      && (s.users[user].isActive ==> Can(t, Some(user), perm))
      && ((other, q) != (user, perm) ==> (Can(t, Some(other), q) <==> Can(s, Some(other), q)))
      && ((user, perm) !in s.grants ==> After(t, Revoke(actor, user, perm)) == s)
  {
  }

  /** Grants go with the role: after a move to anything but officer none is left, and an
      employee then holds nothing. */
  lemma GrantsGoWithTheRole(s: Store, actor: Option<int>, user: int, role: Role, p: Perm)
    requires user in s.users && SetRoleReply(s, actor, user, role) == Done && role != HrOfficer
    ensures var t := After(s, SetRole(actor, user, role));
      && (user, p) !in t.grants && t.users[user].role == role
      && (role == Employee && !t.users[user].isSuperuser ==> !Can(t, Some(user), p))
      && (forall other | other != user :: ((other, p) in t.grants <==> (other, p) in s.grants))
  {
  }

  // ---------- grants are said to be for officers only ----------

  /** Every permission row belongs to an officer. */
  ghost predicate OfficersOnly(s: Store) {
    forall g | g in s.grants :: g.0 in s.users && s.users[g.0].role == HrOfficer
  }

  /** The step gives a permission to somebody who is not an officer. */
  predicate GrantsOutside(s: Store, step: Step) {
    && step.Grant? && step.user in s.users && s.users[step.user].role != HrOfficer
    && GrantReply(s, step.actor, step.perm) == Done
  }

  /** One step keeps the rows officers' own exactly unless it is such a grant: a role change
      takes the grants along, and `grant` itself never looks at the role. */
  lemma StepKeepsOfficersOnlyExactly(s: Store, step: Step)
    requires OfficersOnly(s)
    ensures OfficersOnly(After(s, step)) <==> !GrantsOutside(s, step)
  {
    if GrantsOutside(s, step) { assert (step.user, step.perm) in After(s, step).grants; }
  }

  ghost predicate OfficersOnlyThroughout(s: Store, steps: seq<Step>)
    decreases |steps|
  {
    OfficersOnly(s) && (steps == [] || OfficersOnlyThroughout(After(s, steps[0]), steps[1..]))
  }

  ghost predicate NeverGrantsOutside(s: Store, steps: seq<Step>)
    decreases |steps|
  {
    steps == [] || (!GrantsOutside(s, steps[0]) && NeverGrantsOutside(After(s, steps[0]), steps[1..]))
  }

  /** Over a run the rows are officers' own at every state passed through, the last one
      included, if and only if no step of it grants to anybody else. */
  lemma {:induction false} OfficersOnlyExactly(s: Store, steps: seq<Step>)
    requires OfficersOnly(s)
    ensures OfficersOnlyThroughout(s, steps) <==> NeverGrantsOutside(s, steps)
    ensures NeverGrantsOutside(s, steps) ==> OfficersOnly(Run(s, steps))
    decreases |steps|
  {
    if steps != [] {
      StepKeepsOfficersOnlyExactly(s, steps[0]);
      if !GrantsOutside(s, steps[0]) { OfficersOnlyExactly(After(s, steps[0]), steps[1..]); }
    }
  }

  /** An owner grants running payroll to an employee: nothing refuses it, and it works. */
  lemma EmployeeIsGranted()
    ensures var s := Store(map[1 := User(Owner, false, true), 2 := User(Employee, false, true)], {});
      var t := After(s, Grant(Some(1), 2, PayrollRun));
      && OfficersOnly(s) && !OfficersOnly(t)
      && !Can(s, Some(2), PayrollRun) && Can(t, Some(2), PayrollRun)
  {
    var s := Store(map[1 := User(Owner, false, true), 2 := User(Employee, false, true)], {});
    StepKeepsOfficersOnlyExactly(s, Grant(Some(1), 2, PayrollRun));
  }

  // ---------- what each step is answered, and what it writes ----------

  /** What an officer can do with no grant: these seven, and nothing else on the list; an
      employee can do nothing, and an administrator everything. */
  lemma RolesHold(s: Store, u: int, p: Perm)
    requires u in s.users && s.users[u].isActive && !s.users[u].isSuperuser && (u, p) !in s.grants && !p.Unlisted?
    ensures Can(s, Some(u), p) <==>
      || s.users[u].role == Owner || s.users[u].role == HrAdmin
      || (s.users[u].role == HrOfficer
          && (p == PeopleView || p == PeopleManage || p == AttendanceManage || p == LeaveApprove
              || p == WorkplaceManage || p == ReportsView || p == DashboardView))
  {
  }

  /** While nobody was granted `people.admin`, a grant goes through exactly for a listed
      permission other than it, from an active owner, HR admin or superuser; and then it is
      added for that person. */
  lemma GrantAnsweredExactly(s: Store, actor: Option<int>, user: int, perm: Perm)
    requires NoAdminGrants(s) && user in s.users
    ensures GrantReply(s, actor, perm) ==
      if perm.Unlisted? then Refused(NoSuchPermission)
      else if perm == PeopleAdmin then Refused(NeverGrantable)
      else if !Administers(s, actor) then Refused(NotAdmin) else Done
    ensures After(s, Grant(actor, user, perm)) ==
      if !perm.Unlisted? && perm != PeopleAdmin && Administers(s, actor)
      then Store(s.users, s.grants + {(user, perm)}) else s
    ensures After(s, Revoke(actor, user, perm)) ==
      if Administers(s, actor) then Store(s.users, s.grants - {(user, perm)}) else s
  {
    AdministersByRole(s, actor);
    HoldingRuleIsIdle(s, actor, perm);
  }

  predicate Administers(s: Store, actor: Option<int>) {
    && actor.Some? && actor.value in s.users && s.users[actor.value].isActive
    && (s.users[actor.value].isSuperuser || s.users[actor.value].role == Owner || s.users[actor.value].role == HrAdmin)
  }

  /** Who may be moved to which role, and by whom: nobody to or from owner; to and from HR
      admin by a root alone; everything else by whoever administers. */
  lemma AppointAnsweredExactly(s: Store, actor: Option<int>, user: int, role: Role)
    requires NoAdminGrants(s) && user in s.users
    ensures SetRoleReply(s, actor, user, role) ==
      if role.UnknownRole? then Refused(NoSuchRole)
      else if role == Owner then Refused(OwnerNotAppointable)
      else if !Administers(s, actor) then Refused(NotAdmin)
      else if s.users[user].role == Owner then Refused(OwnerFixed)
      else if (role == HrAdmin || s.users[user].role == HrAdmin)
              && !s.users[actor.value].isSuperuser && s.users[actor.value].role != Owner then Refused(OwnerOnly)
      else Done
  {
    AdministersByRole(s, actor);
  }

  /** An appointment gives one person one role and moves nobody else; an officer keeps the
      grants they had. */
  lemma AppointmentIs(s: Store, actor: Option<int>, user: int, role: Role)
    requires user in s.users && SetRoleReply(s, actor, user, role) == Done
    ensures var t := After(s, SetRole(actor, user, role));
      && t.users.Keys == s.users.Keys && t.users[user] == s.users[user].(role := role)
      && (forall u | u in s.users && u != user :: t.users[u] == s.users[u])
      && (role == HrOfficer ==> t.grants == s.grants)
  {
  }
}
