/** UserRole and its users.UserTypeEnum spelling. */
module Roles {
  import opened Sessions

  datatype UserRole = Subscriber | Attendant | Manager

  /** getDbValue */
  function DbValue(role: UserRole): string {
    match role
    case Subscriber => "sub"
    case Attendant => "emp"
    case Manager => "mng"
  }

  /** values(), in declaration order. */
  const AllRoles: seq<UserRole> := [Subscriber, Attendant, Manager]

  /** The first role of `roles` whose spelling is `dbValue`. */
  function FirstWithDbValue(roles: seq<UserRole>, dbValue: string): (r: Option<UserRole>)
    ensures r.Some? ==> r.value in roles && DbValue(r.value) == dbValue
    ensures r.None? ==> forall role :: role in roles ==> DbValue(role) != dbValue
  {
    if roles == [] then None
    else if DbValue(roles[0]) == dbValue then Some(roles[0])
    else FirstWithDbValue(roles[1..], dbValue)
  }

  /** fromDbValue: the role spelled `dbValue`, or none (null) for any other string. */
  function FromDbValue(dbValue: string): (r: Option<UserRole>)
    ensures r.Some? ==> DbValue(r.value) == dbValue
    ensures r.None? ==> forall role: UserRole :: DbValue(role) != dbValue
  {
    FirstWithDbValue(AllRoles, dbValue)
  }

  /** Every role reads back from its own spelling. */
  lemma DbValueRoundTrip(role: UserRole)
    ensures FromDbValue(DbValue(role)) == Some(role)
  {
    var r := FromDbValue(DbValue(role));
    assert role in AllRoles;
    assert r.Some?;
    match role
    case Subscriber =>
    case Attendant =>
    case Manager =>
  }
}
