/** The directory service as the provisioning job sees it: a list of user
    accounts, a catalog of directory roles and a set of role memberships, and
    the four calls the job makes on it. Every call can raise a service
    exception; which one does is decided by the caller's fault oracle. */
module Directory {

  /** Directory-assigned object ids, abstracted to numbers. */
  type ObjectId = nat

  /** A user account held by the directory. */
  datatype Account = Account(
    id: ObjectId,
    userPrincipalName: string,
    displayName: string,
    mailNickname: string,
    password: string,
    accountEnabled: bool,
    forceChangePasswordNextSignIn: bool)

  /** A directory role in the catalog. */
  datatype Role = Role(id: ObjectId, displayName: string)

  /** "Account `memberId` is a member of role `roleId`". */
  datatype Membership = Membership(roleId: ObjectId, memberId: ObjectId)

  /** The user object sent to the create call; the directory assigns its id. */
  datatype NewUser = NewUser(
    displayName: string,
    mailNickname: string,
    userPrincipalName: string,
    password: string,
    accountEnabled: bool,
    forceChangePasswordNextSignIn: bool)

  /** The four calls; a failing one raises a service exception. */
  datatype Call = ListUsers | CreateUser | ListRoles | AddMember

  datatype Response<+T> = Ok(value: T) | ServiceException(call: Call)

  /** The whole directory. `nextId` is where fresh ids are drawn from;
      `pageSize` is the size of the first page of the user listing. */
  datatype DirState = DirState(
    users: seq<Account>,
    roles: seq<Role>,
    members: set<Membership>,
    nextId: ObjectId,
    pageSize: nat)

  /** The directory's own invariant: principal names and ids are unique,
      and every account id and every member id lies below `nextId`, so an id
      drawn from `nextId` is fresh everywhere. */
  ghost predicate WellFormed(d: DirState)
  {
    && (forall i, j :: 0 <= i < j < |d.users| ==>
          d.users[i].userPrincipalName != d.users[j].userPrincipalName
          && d.users[i].id != d.users[j].id)
    && (forall i :: 0 <= i < |d.users| ==> d.users[i].id < d.nextId)
    && (forall m :: m in d.members ==> m.memberId < d.nextId)
  }

  /** The first page of the user listing: the accounts in listing order, up
      to `pageSize` of them. */
  function FirstPage(d: DirState): (page: seq<Account>)
    ensures page <= d.users
    ensures |page| == if |d.users| <= d.pageSize then |d.users| else d.pageSize
  {
    if |d.users| <= d.pageSize then d.users else d.users[..d.pageSize]
  }

  /** Some account in `accounts` has exactly (case-sensitively) this
      principal name. */
  predicate HasPrincipal(accounts: seq<Account>, upn: string)
  {
    exists i :: 0 <= i < |accounts| && accounts[i].userPrincipalName == upn
  }

  /** The account the directory stores for a successful create. */
  function AccountOf(u: NewUser, id: ObjectId): Account
  {
    Account(id, u.userPrincipalName, u.displayName, u.mailNickname, u.password,
            u.accountEnabled, u.forceChangePasswordNextSignIn)
  }

  /** The directory refuses a create whose principal name is already taken. */
  predicate CreateAccepted(d: DirState, u: NewUser)
  {
    !HasPrincipal(d.users, u.userPrincipalName)
  }

  /** A successful create: the account is appended with the next id. */
  function AfterCreate(d: DirState, u: NewUser): DirState
  {
    d.(users := d.users + [AccountOf(u, d.nextId)], nextId := d.nextId + 1)
  }

  /** The role catalog filtered on an exact display name, catalog order
      kept. */
  function RolesNamed(roles: seq<Role>, name: string): (hits: seq<Role>)
    ensures |hits| <= |roles|
    ensures forall i :: 0 <= i < |hits| ==> hits[i] in roles && hits[i].displayName == name
    ensures forall i :: 0 <= i < |roles| && roles[i].displayName == name ==> roles[i] in hits
  {
    if |roles| == 0 then []
    else
      var rest := RolesNamed(roles[1..], name);
      if roles[0].displayName == name then [roles[0]] + rest else rest
  }

  /** The first hit of the role filter is the earliest catalog entry with
      that name. */
  lemma {:induction false} FirstHitIsEarliest(roles: seq<Role>, name: string)
    requires RolesNamed(roles, name) != []
    ensures exists j :: 0 <= j < |roles| && roles[j] == RolesNamed(roles, name)[0]
                        && forall i :: 0 <= i < j ==> roles[i].displayName != name
  {
    if roles[0].displayName != name {
      FirstHitIsEarliest(roles[1..], name);
      var j :| 0 <= j < |roles[1..]| && roles[1..][j] == RolesNamed(roles[1..], name)[0]
               && forall i :: 0 <= i < j ==> roles[1..][i].displayName != name;
      assert roles[j + 1] == RolesNamed(roles, name)[0];
      forall i | 0 <= i < j + 1 ensures roles[i].displayName != name {
        if i > 0 { assert roles[i] == roles[1..][i - 1]; }
      }
    }
  }

  /** The filter finds nothing exactly when no catalog entry has the name. */
  lemma NoHitMeansNoSuchRole(roles: seq<Role>, name: string)
    ensures RolesNamed(roles, name) == [] <==>
            forall i :: 0 <= i < |roles| ==> roles[i].displayName != name
  {
    if RolesNamed(roles, name) != [] {
      assert RolesNamed(roles, name)[0] in roles;
    }
  }

  /** The directory service client. Its state is the directory; the role
      catalog is never changed through it. `calls` logs every call made
      through it, in order. */
  class Graph {
    var users: seq<Account>
    const roles: seq<Role>
    var members: set<Membership>
    var nextId: ObjectId
    const pageSize: nat
    ghost var calls: seq<Call>

    /** The directory as a value. */
    function State(): (d: DirState)
      reads this
    {
      DirState(users, roles, members, nextId, pageSize)
    }

    constructor (d: DirState)
      ensures State() == d && calls == []
    {
      users, roles, members, nextId, pageSize := d.users, d.roles, d.members, d.nextId, d.pageSize;
      calls := [];
    }

    /** Fetch the first page of users. */
    method ListUsers(fails: bool) returns (r: Response<seq<Account>>)
      modifies this`calls
      ensures calls == old(calls) + [Call.ListUsers] && State() == old(State())
      ensures fails <==> r.ServiceException?
      ensures r.ServiceException? ==> r.call == Call.ListUsers
      ensures r.Ok? ==> r.value == FirstPage(State())
    {
      calls := calls + [Call.ListUsers];
      if fails {
        r := ServiceException(Call.ListUsers);
      } else {
        r := Ok(FirstPage(State()));
      }
    }

    /** Create a user; the directory assigns the id and refuses a taken
      principal name. A refused create changes nothing. */
    method AddUser(u: NewUser, fails: bool) returns (r: Response<Account>)
      modifies this
      ensures calls == old(calls) + [Call.CreateUser]
      ensures r.Ok? <==> !fails && CreateAccepted(old(State()), u)
      ensures r.ServiceException? ==> r.call == Call.CreateUser && State() == old(State())
      ensures r.Ok? ==> r.value == AccountOf(u, old(nextId))
                        && State() == AfterCreate(old(State()), u)
    {
      calls := calls + [Call.CreateUser];
      if fails || HasPrincipal(users, u.userPrincipalName) {
        r := ServiceException(Call.CreateUser);
      } else {
        r := Ok(AccountOf(u, nextId));
        users := users + [r.value];
        nextId := nextId + 1;
      }
    }

    /** Fetch the roles whose display name equals `name`. */
    method DirectoryRolesNamed(name: string, fails: bool) returns (r: Response<seq<Role>>)
      modifies this`calls
      ensures calls == old(calls) + [Call.ListRoles] && State() == old(State())
      ensures fails <==> r.ServiceException?
      ensures r.ServiceException? ==> r.call == Call.ListRoles
      ensures r.Ok? ==> r.value == RolesNamed(roles, name)
    {
      calls := calls + [Call.ListRoles];
      if fails {
        r := ServiceException(Call.ListRoles);
      } else {
        r := Ok(RolesNamed(roles, name));
      }
    }

    /** Add a member reference to a role. */
    method AddMemberReference(roleId: ObjectId, memberId: ObjectId, fails: bool) returns (r: Response<()>)
      modifies this
      ensures calls == old(calls) + [Call.AddMember]
      ensures fails <==> r.ServiceException?
      ensures r.ServiceException? ==> r.call == Call.AddMember && State() == old(State())
      ensures r.Ok? ==> State() == old(State()).(members := old(members) + {Membership(roleId, memberId)})
    {
      calls := calls + [Call.AddMember];
      if fails {
        r := ServiceException(Call.AddMember);
      } else {
        members := members + {Membership(roleId, memberId)};
        r := Ok(());
      }
    }
  }
}
