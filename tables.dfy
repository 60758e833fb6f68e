/**
 * The rows of the four tables the dashboard keeps: RCA remarks, deleted
 * remarks, users and the login audit. Every cell is modelled as the value
 * that was written into it; timestamps are opaque ordered instants.
 */
module Tables {

  datatype Option<+T> = None | Some(value: T)

  /** An instant as returned by the clock; only its order matters. */
  type Time = int

  /** The three choices offered by the "RCA Type" select box. */
  datatype RcaType = Pendency | Shortage | Loss

  /** One row of the RCA table: awb, sc_name, rca_type, email_subject,
      rca_remark, updated_by, updated_on. */
  datatype Rca = Rca(
    awb: string,
    scName: string,
    rcaType: RcaType,
    emailSubject: string,
    remark: string,
    updatedBy: string,
    updatedOn: Time)

  /** One row of the deleted-remarks table: awb, rca_remark, deleted_by, deleted_on. */
  datatype DeletedRca = DeletedRca(awb: string, remark: string, deletedBy: string, deletedOn: Time)

  /** One row of the users sheet, in the column order the create-user form writes. */
  datatype User = User(email: string, role: string, name: string, password: string)

  /** One row of the login audit: email, role, login_time. */
  datatype AuditEntry = AuditEntry(email: string, role: string, loginTime: Time)

  /** The fields of the RCA update form that every pasted AWB shares. */
  datatype RcaForm = RcaForm(scName: string, rcaType: RcaType, emailSubject: string, remark: string)

  /** A non-empty set has an element (the witness for picking one with `:|`). */
  lemma NonEmptyHasElement<T>(a: set<T>)
    requires a != {}
    ensures exists x :: x in a
  {
  }

  /** Some element of a non-empty set. */
  ghost function Pick<T>(a: set<T>): (x: T)
    requires a != {}
    ensures x in a
  {
    NonEmptyHasElement(a);
    var x :| x in a;
    x
  }
}
