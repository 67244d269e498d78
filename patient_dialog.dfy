/** dialog.PatientDialog: the modal dialog that creates a patient from a
    name, an address and a phone number, or edits those three of an existing
    patient. The fields are plain text fields; after every change of any of
    them checkForChange enables Confirm exactly when all three hold text.

    The modal showDialog is split as for the other dialogs: ShowNew and
    ShowEdit are what happens before the wait, the field and button methods
    are the events that arrive while the dialog is open, and showDialog
    returns the `patient` field once the dialog is closed. */
module PatientDialogs {
  import opened Ids
  import opened Patients

  /** checkForChange's rule: Confirm is on exactly when no field is empty. */
  predicate AllFilled(name: string, address: string, phone: string) {
    name != [] && address != [] && phone != []
  }

  class PatientDialog {
    var patient: Patient?
    var nameText: string
    var addressText: string
    var phoneText: string
    var confirmEnabled: bool
    var visible: bool

    /** Between events Confirm agrees with the three fields. */
    predicate Valid()
      reads this
    {
      confirmEnabled == AllFilled(nameText, addressText, phoneText)
    }

    /** The constructor: three empty fields, Confirm disabled, no patient. */
    constructor ()
      ensures Valid() && !visible
      ensures patient == null && nameText == [] && addressText == [] && phoneText == []
      ensures !confirmEnabled
    {
      patient := null;
      nameText := [];
      addressText := [];
      phoneText := [];
      confirmEnabled := false;
      visible := false;
    }

    /** checkForChange: Confirm is disabled when any field is empty and
        enabled otherwise. */
    method CheckForChange()
      modifies this`confirmEnabled
      ensures Valid()
      ensures confirmEnabled <==> nameText != [] && addressText != [] && phoneText != []
    {
      if nameText == [] || addressText == [] || phoneText == [] {
        confirmEnabled := false;
      } else {
        confirmEnabled := true;
      }
    }

    /** An edit of the name field (typing, deleting or setText) that leaves
        it holding `t`; the document listener runs checkForChange. */
    method EditName(t: string)
      modifies this`nameText, this`confirmEnabled
      ensures Valid()
      ensures nameText == t && addressText == old(addressText) && phoneText == old(phoneText)
    {
      nameText := t;
      CheckForChange();
    }

    /** An edit of the address field that leaves it holding `t`. */
    method EditAddress(t: string)
      modifies this`addressText, this`confirmEnabled
      ensures Valid()
      ensures addressText == t && nameText == old(nameText) && phoneText == old(phoneText)
    {
      addressText := t;
      CheckForChange();
    }

    /** An edit of the phone field that leaves it holding `t`. */
    method EditPhone(t: string)
      modifies this`phoneText, this`confirmEnabled
      ensures Valid()
      ensures phoneText == t && nameText == old(nameText) && addressText == old(addressText)
    {
      phoneText := t;
      CheckForChange();
    }

    /** showDialog(): the dialog goes on screen and waits for the user. */
    method ShowNew()
      requires Valid()
      modifies this`visible
      ensures Valid() && visible
    {
      visible := true;
    }

    /** showDialog(patient): the dialog keeps a reference to the patient and
        fills the three fields with its name, address and phone, so Confirm
        is enabled exactly when none of them is empty. */
    method ShowEdit(p: Patient)
      modifies this
      ensures Valid() && visible && patient == p
      ensures nameText == p.patientName && addressText == p.patientAddress
        && phoneText == p.patientPhone
      ensures confirmEnabled <==> AllFilled(p.patientName, p.patientAddress, p.patientPhone)
    {
      patient := p;
      EditName(p.patientName);
      EditAddress(p.patientAddress);
      EditPhone(p.patientPhone);
      visible := true;
    }

    /** Confirm: with no patient a new one is made from the three fields
        through the auto-id constructor, otherwise the edited patient's name,
        address and phone are overwritten and its id and lists are kept. The
        dialog then closes. Since Confirm is only enabled with all three
        fields filled, a confirmed patient never has an empty name, address
        or phone. */
    method Confirm(ids: IdCounter)
      requires Valid() && visible && confirmEnabled
      modifies this`patient, this`visible, ids, patient
      ensures Valid() && !visible && patient != null
      ensures AllFilled(patient.patientName, patient.patientAddress, patient.patientPhone)
      ensures old(patient) == null ==>
        fresh(patient)
        && patient.Details() == (old(ids.next), nameText, addressText, phoneText)
        && patient.patientProcedureList == [] && patient.patientPaymentList == []
        && ids.next == Inc32(old(ids.next))
      ensures old(patient) != null ==>
        patient == old(patient)
        && patient.Details() == (old(patient.patientNo), nameText, addressText, phoneText)
        && patient.patientProcedureList == old(patient.patientProcedureList)
        && patient.patientPaymentList == old(patient.patientPaymentList)
        && ids.next == old(ids.next)
    {
      if patient == null {
        patient := new Patient(ids, nameText, addressText, phoneText);
      } else {
        patient.SetPatientName(nameText);
        patient.SetPatientAddress(addressText);
        patient.SetPatientPhone(phoneText);
      }
      visible := false;
    }

    /** Cancel: the dialog closes and nothing else changes, so showDialog
        returns null for a new patient and the untouched patient for an
        edit. */
    method Cancel()
      requires Valid()
      modifies this`visible
      ensures Valid() && !visible
    {
      visible := false;
    }
  }

  /** Opening the edit dialog on a patient whose fields are all filled and
      confirming without touching anything leaves the patient as it was. */
  method EditUnchanged(p: Patient, ids: IdCounter)
    requires AllFilled(p.patientName, p.patientAddress, p.patientPhone)
    modifies p, ids
    ensures p.Details() == old(p.Details())
    ensures p.patientProcedureList == old(p.patientProcedureList)
    ensures p.patientPaymentList == old(p.patientPaymentList)
    ensures ids.next == old(ids.next)
  {
    var dialog := new PatientDialog();
    dialog.ShowEdit(p);
    dialog.Confirm(ids);
  }

  /** Filling the three fields of a new dialog and confirming creates a
      patient with those details, the counter's id and no procedures or
      payments. */
  method CreatePatient(ids: IdCounter, name: string, address: string, phone: string)
    returns (p: Patient?)
    requires AllFilled(name, address, phone)
    modifies ids
    ensures p != null && fresh(p)
    ensures p.Details() == (old(ids.next), name, address, phone)
    ensures p.patientProcedureList == [] && p.patientPaymentList == []
    ensures ids.next == Inc32(old(ids.next))
  {
    var dialog := new PatientDialog();
    dialog.ShowNew();
    dialog.EditName(name);
    dialog.EditAddress(address);
    dialog.EditPhone(phone);
    dialog.Confirm(ids);
    p := dialog.patient;
  }
}
