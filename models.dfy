/**
  The records of src/models.rs that the modelled logic uses (the session, a
  collaborator and its permissions, the dashboard query), and the two pieces
  of logic they carry: the permission label a collaborator is shown with, and
  the filter options built from the dashboard query string.
*/
module Models {
  import opened Base
  import opened Text

  /** Rust's `u64`, used for GitHub's numeric ids. */
  newtype U64 = x: int | 0 <= x < 0x1_0000_0000_0000_0000

  datatype SessionData = SessionData(accessToken: String, userLogin: String, csrfToken: String)

  /** Each flag defaults to `false` when the upstream JSON leaves it out. */
  datatype Permissions = Permissions(admin: bool, push: bool, pull: bool, maintain: bool, triage: bool)

  /** `Permissions::default()`, also what a collaborator without a `permissions` object gets. */
  const DEFAULT_PERMISSIONS: Permissions := Permissions(false, false, false, false, false)

  datatype Collaborator = Collaborator(login: String, id: U64, permissions: Permissions, roleName: Option<String>)

  datatype DashboardQuery = DashboardQuery(ignoreForks: bool, ignoreArchived: bool)

  datatype RepoFilterOptions = RepoFilterOptions(ignoreForks: bool, ignoreArchived: bool)

  /** The labels the dashboard shows, strongest first. */
  const LABEL_ORDER: seq<String> := ["admin", "maintain", "write", "triage", "read"]

  /** `Collaborator::permission_label`: the first set flag in the order admin, maintain, push, triage. */
  function PermissionLabel(c: Collaborator): (name: String)
    ensures name in LABEL_ORDER
    ensures c.permissions.admin ==> name == "admin"
  {
    if c.permissions.admin then "admin"
    else if c.permissions.maintain then "maintain"
    else if c.permissions.push then "write"
    else if c.permissions.triage then "triage"
    else "read"
  }

  /** Which flag backs each label; every collaborator can at least read. */
  predicate Grants(p: Permissions, name: String) {
    if name == "admin" then p.admin
    else if name == "maintain" then p.maintain
    else if name == "write" then p.push
    else if name == "triage" then p.triage
    else name == "read"
  }

  /** `name` is granted, and no label before it in `LABEL_ORDER` is. */
  ghost predicate IsStrongestGranted(p: Permissions, name: String) {
    exists i :: 0 <= i < |LABEL_ORDER| && LABEL_ORDER[i] == name && Grants(p, name)
      && forall j :: 0 <= j < i ==> !Grants(p, LABEL_ORDER[j])
  }

  /** The label is the strongest one the flags grant, and no other label is. */
  lemma {:induction false} PermissionLabelIsStrongestGranted(c: Collaborator, other: String)
    ensures IsStrongestGranted(c.permissions, PermissionLabel(c))
    ensures IsStrongestGranted(c.permissions, other) ==> other == PermissionLabel(c)
  {
    var p := c.permissions;
    var name := PermissionLabel(c);
    var i :| 0 <= i < |LABEL_ORDER| && LABEL_ORDER[i] == name;
    assert forall j :: 0 <= j < i ==> !Grants(p, LABEL_ORDER[j]);
    if IsStrongestGranted(p, other) {
      var k :| 0 <= k < |LABEL_ORDER| && LABEL_ORDER[k] == other && Grants(p, other)
        && forall j :: 0 <= j < k ==> !Grants(p, LABEL_ORDER[j]);
      assert k == i;
    }
  }

  /** `push` is shown as `write`, never as `push`. */
  lemma PushIsShownAsWrite(c: Collaborator)
    requires !c.permissions.admin && !c.permissions.maintain && c.permissions.push
    ensures PermissionLabel(c) == "write"
  {
  }

  /** The label depends on the flags only (not on login, id or role name), and never on `pull`. */
  lemma LabelIgnoresIdentityAndPull(c: Collaborator, d: Collaborator)
    requires c.permissions.(pull := false) == d.permissions.(pull := false)
    ensures PermissionLabel(c) == PermissionLabel(d)
  {
  }

  /** Default permissions, all five flags clear, are shown as `read`. */
  lemma DefaultPermissionsRead(c: Collaborator)
    requires c.permissions == DEFAULT_PERMISSIONS
    ensures PermissionLabel(c) == "read"
  {
  }

  /** `From<DashboardQuery> for RepoFilterOptions`: both flags copied unchanged. */
  function FilterOptionsFrom(q: DashboardQuery): (o: RepoFilterOptions)
    ensures o.ignoreForks == q.ignoreForks && o.ignoreArchived == q.ignoreArchived
  {
    RepoFilterOptions(q.ignoreForks, q.ignoreArchived)
  }
}
