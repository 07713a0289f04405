/**
 * Role-based permission catalog (src/access_control.rs): a closed set of
 * permissions, a role value holding a name and a permission set, and the four
 * fixed roles the application hands out.
 */
module AccessControl {

  /** Every capability a role can hold. */
  datatype Permission =
    | ViewPatient
    | CreateClinicianAccount
    | CreatePatientAccount
    | CreateCaretakerLink
    | UpdatePatient
    | ViewGlucose
    | AddGlucose

  datatype Role = Role(name: string, permissions: set<Permission>) {

    /** `has_permission`: a membership test on the role's set. */
    predicate HasPermission(p: Permission) {
      p in permissions
    }
  }

  /**
   * Collects a listed sequence of permissions into a set, one element at a
   * time, as `iter().cloned().collect()` does; repeated entries collapse.
   */
  function CollectPermissions(listed: seq<Permission>): (s: set<Permission>)
    ensures forall p :: p in s <==> p in listed
    ensures |s| <= |listed|
  {
    if listed == [] then {}
    else
      var rest := CollectPermissions(listed[1..]);
      assert |{listed[0]} + rest| <= 1 + |rest|;
      {listed[0]} + rest
  }

  /**
   * `Role::new`: the callers pass a literal list, which is collected into the
   * role's permission set; the name is kept unchanged.
   */
  function NewRole(name: string, listed: seq<Permission>): (r: Role)
    ensures r.name == name
    ensures forall p :: r.HasPermission(p) <==> p in listed
    ensures |r.permissions| <= |listed|
  {
    Role(name, CollectPermissions(listed))
  }

  /** The literal permission tables the four role constructors pass to `Role::new`. */
  const ClinicianTable: seq<Permission> := [
    ViewPatient,
    CreateClinicianAccount,
    CreatePatientAccount,
    CreateCaretakerLink,
    UpdatePatient,
    ViewGlucose,
    AddGlucose
  ]
  const PatientTable: seq<Permission> := [ViewPatient, ViewGlucose, AddGlucose, CreateCaretakerLink]
  const CaretakerTable: seq<Permission> := [ViewPatient, ViewGlucose]
  const AdminTable: seq<Permission> := [CreateClinicianAccount]

  /** The clinician table lists every permission of the catalog. */
  lemma ClinicianTableComplete(p: Permission)
    ensures p in ClinicianTable
  {
  }

  /** The patient table lists every permission except the two account creations and patient updates. */
  lemma PatientTableExact(p: Permission)
    ensures p in PatientTable <==>
      p != CreateClinicianAccount && p != CreatePatientAccount && p != UpdatePatient
  {
  }

  /** The clinician role: every permission of the catalog, account creation for clinicians included. */
  function ClinicianRole(): (r: Role)
    ensures r.name == "clinician"
    ensures forall p :: r.HasPermission(p)
  {
    var r := NewRole("clinician", ClinicianTable);
    assert forall p :: r.HasPermission(p) by {
      forall p ensures r.HasPermission(p) {
        ClinicianTableComplete(p);
      }
    }
    r
  }

  /** The patient role: everything except creating accounts and updating patient records. */
  function PatientRole(): (r: Role)
    ensures r.name == "patient"
    ensures forall p :: r.HasPermission(p) <==>
      p != CreateClinicianAccount && p != CreatePatientAccount && p != UpdatePatient
  {
    var r := NewRole("patient", PatientTable);
    assert forall p :: r.HasPermission(p) <==>
      p != CreateClinicianAccount && p != CreatePatientAccount && p != UpdatePatient by {
      forall p ensures r.HasPermission(p) <==>
        p != CreateClinicianAccount && p != CreatePatientAccount && p != UpdatePatient {
        PatientTableExact(p);
      }
    }
    r
  }

  /** The caretaker role: the two viewing permissions and nothing else. */
  function CaretakerRole(): (r: Role)
    ensures r.name == "caretaker"
    ensures r.permissions == {ViewPatient, ViewGlucose}
  {
    NewRole("caretaker", CaretakerTable)
  }

  /** The admin role: it may only create clinician accounts. */
  function AdminRole(): (r: Role)
    ensures r.name == "admin"
    ensures r.permissions == {CreateClinicianAccount}
  {
    NewRole("admin", AdminTable)
  }

  /** The caretaker role may neither add glucose readings nor create any kind of account. */
  lemma CaretakerIsReadOnly(p: Permission)
    requires CaretakerRole().HasPermission(p)
    ensures p != AddGlucose && p != UpdatePatient && p != CreateCaretakerLink
    ensures p != CreateClinicianAccount && p != CreatePatientAccount
  {
  }

  /** The admin role sees no patient data. */
  lemma AdminSeesNoPatientData()
    ensures !AdminRole().HasPermission(ViewPatient)
    ensures !AdminRole().HasPermission(ViewGlucose)
    ensures forall p :: AdminRole().HasPermission(p) ==> ClinicianRole().HasPermission(p)
  {
  }

  /**
   * The permission sets are strictly nested: every caretaker permission is a
   * patient permission and every patient permission a clinician permission.
   */
  lemma RolesNested()
    ensures CaretakerRole().permissions < PatientRole().permissions
    ensures PatientRole().permissions < ClinicianRole().permissions
  {
  }
}
